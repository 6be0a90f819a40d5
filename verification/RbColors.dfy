/** The colour discipline of the red-black tree, on the snapshots of RbLinks.  Tint says what one
    node owes: both ways down count the same black nodes, and a red node has a black parent.  While
    a rebalancing walk is under way one debt is outstanding: node e may be red below a red parent,
    the children of f may be red below a red f, and the way down from xp on side d may be one black
    node short. */
module RbColors {
  import opened RbLinks

  ghost function Bh(m: Mem, n: Node?): int
    requires n != null ==> n in m
  {
    if n == null then 0 else m[n].bh
  }

  ghost function Weight(c: Color): int {
    if c == Black then 1 else 0
  }

  ghost predicate IsRed(m: Mem, n: Node?)
    requires n != null ==> n in m
  {
    n != null && m[n].color == Red
  }

  ghost predicate KidIn(m: Mem, n: Node, d: Dir)
    requires n in m
  {
    m[n].Kid(d) != null ==> m[n].Kid(d) in m
  }

  ghost predicate WayOk(m: Mem, n: Node, e: Dir, xp: Node?, d: Dir)
    requires n in m && KidIn(m, n, e)
  {
    m[n].bh == Bh(m, m[n].Kid(e)) + Weight(m[n].color) + (if n == xp && e == d then 1 else 0)
  }

  ghost predicate RedOk(m: Mem, h: Node, n: Node)
    requires n in m
  {
    m[n].color == Red && m[n].parent != h ==> m[n].parent != null && m[n].parent in m && m[m[n].parent].color == Black
  }

  ghost predicate Ways(m: Mem, n: Node, xp: Node?, d: Dir)
    requires n in m
  {
    && KidIn(m, n, Left) && KidIn(m, n, Right)
    && m[n].bh >= Weight(m[n].color)
    && WayOk(m, n, Left, xp, d) && WayOk(m, n, Right, xp, d)
  }

  ghost predicate Reds(m: Mem, h: Node, n: Node, e: Node?, f: Node?)
    requires n in m
  {
    n == e || (f != null && m[n].parent == f) || RedOk(m, h, n)
  }

  ghost predicate Tint(m: Mem, h: Node, n: Node, e: Node?, f: Node?, xp: Node?, d: Dir)
    requires n in m
  {
    Ways(m, n, xp, d) && Reds(m, h, n, e, f)
  }

  /** What the colours need to know of the shape around n. */
  ghost predicate KidLink(m: Mem, h: Node, n: Node, d: Dir)
    requires n in m
  {
    var k := m[n].Kid(d);
    k != null ==> k in m && k != h && k != n && m[k].parent == n && k != m[n].Kid(d.Opp())
  }

  ghost predicate Linked(m: Mem, h: Node, n: Node) {
    && n in m && n != h && KidLink(m, h, n, Left) && KidLink(m, h, n, Right)
    && (m[n].parent == h || (m[n].parent != null && m[n].parent in m && m[n].parent != n
                             && (m[m[n].parent].left == n || m[m[n].parent].right == n)))
  }

  lemma LinkedOf(m: Mem, h: Node, s: seq<Node>, n: Node)
    requires Shaped(m, h, s) && n in m && n != h
    ensures Linked(m, h, n)
  {
    NearOf(m, h, s, n);
  }

  ghost predicate Painted(m: Mem, h: Node, e: Node?, f: Node?, xp: Node?, d: Dir) {
    forall n {:trigger Tint(m, h, n, e, f, xp, d)} :: n in m && n != h ==> Tint(m, h, n, e, f, xp, d)
  }

  /** A finished red-black tree: no debt, and the root is black. */
  ghost predicate RedBlack(m: Mem, h: Node) {
    && h in m
    && Painted(m, h, null, null, null, Left)
    && (m[h].parent != null ==> m[h].parent in m && m[m[h].parent].color == Black)
  }

  /** A step that repaints at most three nodes and leaves every link alone. */
  datatype Coat = Coat(n: Node?, color: Color, bh: int)

  ghost function CoatCell(c: Cell, n: Node, a: Coat, b: Coat, g: Coat): Cell {
    c.(color := if n == a.n then a.color else if n == b.n then b.color else if n == g.n then g.color else c.color,
       bh := if n == a.n then a.bh else if n == b.n then b.bh else if n == g.n then g.bh else c.bh)
  }

  ghost predicate IsPaint(m: Mem, m': Mem, a: Coat, b: Coat, g: Coat) {
    && m'.Keys == m.Keys
    && forall n {:trigger m'[n]} :: n in m ==> m'[n] == CoatCell(m[n], n, a, b, g)
  }

  // Away from a rotation, and from what is painted with it, the ways down are what they were.
  lemma RotElse(m: Mem, m1: Mem, m': Mem, h: Node, d: Dir, x: Node, y: Node, a: Coat, b: Coat, g: Coat,
                n: Node, xp: Node?, e: Dir, xp': Node?, e': Dir)
    requires IsRot(m, m1, h, d, x, y) && Linked(m, h, x) && Linked(m, h, n) && n != x && n != y
    requires IsPaint(m1, m', a, b, g) && m'[y].bh == m[x].bh
    requires m'[n].bh - Weight(m'[n].color) == m[n].bh - Weight(m[n].color) && m'[n].bh >= Weight(m'[n].color)
    requires forall k {:trigger m'[k]} :: k in m && m[k].parent == n && k != x ==> m'[k].bh == m[k].bh
    requires Ways(m, n, xp, e) && (n == xp <==> n == xp') && (n == xp ==> e == e')
    ensures Ways(m', n, xp', e')
  {
    KidElse(m, m1, m', h, d, x, y, n, Left);
    KidElse(m, m1, m', h, d, x, y, n, Right);
  }

  lemma KidElse(m: Mem, m1: Mem, m': Mem, h: Node, d: Dir, x: Node, y: Node, n: Node, e: Dir)
    requires IsRot(m, m1, h, d, x, y) && Linked(m, h, x) && Linked(m, h, n) && n != x && n != y
    requires m'.Keys == m1.Keys && m'[n].left == m1[n].left && m'[n].right == m1[n].right && m'[y].bh == m[x].bh
    requires forall k {:trigger m'[k]} :: k in m && m[k].parent == n && k != x ==> m'[k].bh == m[k].bh
    ensures KidIn(m, n, e) && KidIn(m', n, e) && Bh(m', m'[n].Kid(e)) == Bh(m, m[n].Kid(e))
  {
  }

  // ---------------------------------------------------------------- insertion

  lemma LeafTint(m: Mem, m': Mem, h: Node, y: Node, d: Dir, z: Node, n: Node)
    requires IsLeaf(m, m', h, y, d, z) && n != h && (n == z || n in m)
    requires n != z ==> Linked(m, h, n) && Tint(m, h, n, null, null, null, Left)
    requires m'[z].color == Red && m'[z].bh == 0
    ensures Tint(m', h, n, z, null, null, Left)
  {
    if d == Left {} else {}
  }

  lemma FlipWays(m: Mem, m': Mem, h: Node, x: Node, p: Node, u: Node, g: Node, d: Dir, n: Node)
    requires Linked(m, h, n) && Linked(m, h, p) && Linked(m, h, g) && x in m && u in m
    requires m[x].parent == p && m[g].Kid(d) == p && m[g].Kid(d.Opp()) == u && x != p
    requires m[p].color == Red && m[u].color == Red
    requires Ways(m, n, null, Left) && Reds(m, h, n, x, null) && Reds(m, h, p, x, null)
    requires IsPaint(m, m', Coat(p, Black, m[p].bh + 1), Coat(u, Black, m[u].bh + 1), Coat(g, Red, m[g].bh))
    ensures Ways(m', n, null, Left)
  {
    if d == Left {} else {}
  }

  lemma FlipReds(m: Mem, m': Mem, h: Node, x: Node, p: Node, u: Node, g: Node, d: Dir, n: Node)
    requires Linked(m, h, n) && Linked(m, h, p) && Linked(m, h, g) && x in m && u in m
    requires m[x].parent == p && m[g].Kid(d) == p && m[g].Kid(d.Opp()) == u && x != p
    requires m[p].color == Red && m[u].color == Red
    requires Ways(m, n, null, Left) && Reds(m, h, n, x, null) && Reds(m, h, p, x, null)
    requires IsPaint(m, m', Coat(p, Black, m[p].bh + 1), Coat(u, Black, m[u].bh + 1), Coat(g, Red, m[g].bh))
    ensures Reds(m', h, n, g, null)
  {
    if d == Left {} else {}
  }

  lemma FlipTint(m: Mem, m': Mem, h: Node, x: Node, p: Node, u: Node, g: Node, d: Dir, n: Node)
    requires Linked(m, h, n) && Linked(m, h, p) && Linked(m, h, g) && x in m && u in m
    requires m[x].parent == p && m[g].Kid(d) == p && m[g].Kid(d.Opp()) == u && x != p
    requires m[p].color == Red && m[u].color == Red
    requires Ways(m, n, null, Left) && Reds(m, h, n, x, null) && Reds(m, h, p, x, null)
    requires IsPaint(m, m', Coat(p, Black, m[p].bh + 1), Coat(u, Black, m[u].bh + 1), Coat(g, Red, m[g].bh))
    ensures Tint(m', h, n, g, null, null, Left)
  {
    FlipWays(m, m', h, x, p, u, g, d, n);
    FlipReds(m, m', h, x, p, u, g, d, n);
  }

  lemma InnerTint(m: Mem, m': Mem, h: Node, d: Dir, p: Node, x: Node, n: Node)
    requires IsRot(m, m', h, d, p, x) && Linked(m, h, n) && Linked(m, h, p) && Linked(m, h, x)
    requires m[x].color == Red && m[p].color == Red
    requires Ways(m, p, null, Left) && Ways(m, x, null, Left) && Ways(m, n, null, Left)
    requires Reds(m, h, p, x, null) && Reds(m, h, n, x, null)
    ensures Tint(m', h, n, p, null, null, Left)
  {
    if d == Left {} else {}
  }

  lemma OuterTop(m: Mem, m1: Mem, m': Mem, h: Node, d: Dir, g: Node, p: Node, x: Node, n: Node)
    requires IsRot(m, m1, h, d, g, p) && Linked(m, h, g) && Linked(m, h, p) && Linked(m, h, n)
    requires m[p].Kid(d.Opp()) == x && m[p].color == Red && m[g].color == Black
    requires Ways(m, g, null, Left) && Ways(m, p, null, Left) && Ways(m, n, null, Left)
    requires IsPaint(m1, m', Coat(p, Black, m[p].bh + 1), Coat(g, Red, m[g].bh - 1), Coat(null, Red, 0))
    requires n == g || n == p
    ensures Ways(m', n, null, Left)
  {
    if d == Left {} else {}
  }

  lemma OuterWays(m: Mem, m1: Mem, m': Mem, h: Node, d: Dir, g: Node, p: Node, x: Node, n: Node)
    requires IsRot(m, m1, h, d, g, p) && Linked(m, h, g) && Linked(m, h, p) && Linked(m, h, n)
    requires m[p].Kid(d.Opp()) == x && m[p].color == Red && m[g].color == Black
    requires Ways(m, g, null, Left) && Ways(m, p, null, Left) && Ways(m, n, null, Left)
    requires IsPaint(m1, m', Coat(p, Black, m[p].bh + 1), Coat(g, Red, m[g].bh - 1), Coat(null, Red, 0))
    ensures Ways(m', n, null, Left)
  {
    if n == g || n == p {
      OuterTop(m, m1, m', h, d, g, p, x, n);
    } else {
      RotElse(m, m1, m', h, d, g, p,
              Coat(p, Black, m[p].bh + 1), Coat(g, Red, m[g].bh - 1), Coat(null, Red, 0),
              n, null, Left, null, Left);
    }
  }

  lemma OuterReds(m: Mem, m1: Mem, m': Mem, h: Node, d: Dir, g: Node, p: Node, x: Node, n: Node)
    requires IsRot(m, m1, h, d, g, p) && Linked(m, h, g) && Linked(m, h, p) && Linked(m, h, n)
    requires m[p].Kid(d.Opp()) == x && m[x].color == Red && m[p].color == Red
    requires Reds(m, h, n, x, null)
    requires !IsRed(m, m[g].Kid(d))
    requires IsPaint(m1, m', Coat(p, Black, m[p].bh + 1), Coat(g, Red, m[g].bh - 1), Coat(null, Red, 0))
    ensures Reds(m', h, n, null, null)
  {
    if d == Left {} else {}
  }

  lemma RootTint(m: Mem, m': Mem, h: Node, r: Node, n: Node)
    requires Linked(m, h, n) && Linked(m, h, r) && m[r].parent == h && m[r].color == Red
    requires Tint(m, h, n, null, null, null, Left)
    requires IsPaint(m, m', Coat(r, Black, m[r].bh + 1), Coat(null, Red, 0), Coat(null, Red, 0))
    ensures Tint(m', h, n, null, null, null, Left)
  {
  }

  // ---------------------------------------------------------------- erasure

  // The slot that unlinking y leaves one black node short: side d of xp, or none at the root.
  ghost predicate IsSlot(m: Mem, h: Node, y: Node, xp: Node?, d: Dir)
    requires y in m
  {
    if m[y].parent == h then xp == null else xp != null && xp == m[y].parent && xp in m && m[xp].Kid(d) == y
  }

  lemma SpliceWays(m: Mem, m': Mem, h: Node, y: Node, x: Node?, xp: Node?, d: Dir, n: Node)
    requires IsSplice(m, m', h, y, x) && Linked(m, h, n) && Linked(m, h, y) && n != y
    requires Tint(m, h, n, null, null, null, Left) && Tint(m, h, y, null, null, null, Left)
    requires IsSlot(m, h, y, xp, d) && m[y].color == Black
    ensures Ways(m', n, xp, d)
  {
    if d == Left {} else {}
  }

  lemma SpliceReds(m: Mem, m': Mem, h: Node, y: Node, x: Node?, xp: Node?, d: Dir, n: Node)
    requires IsSplice(m, m', h, y, x) && Linked(m, h, n) && Linked(m, h, y) && n != y
    requires Tint(m, h, n, null, null, null, Left) && Tint(m, h, y, null, null, null, Left)
    requires IsSlot(m, h, y, xp, d) && m[y].color == Black
    ensures Reds(m', h, n, x, x)
  {
    if d == Left {} else {}
  }

  lemma SpliceTint(m: Mem, m': Mem, h: Node, y: Node, x: Node?, xp: Node?, d: Dir, n: Node)
    requires IsSplice(m, m', h, y, x) && Linked(m, h, n) && Linked(m, h, y) && n != y
    requires Tint(m, h, n, null, null, null, Left) && Tint(m, h, y, null, null, null, Left)
    requires IsSlot(m, h, y, xp, d) && m[y].color == Black
    ensures Tint(m', h, n, x, x, xp, d)
  {
    SpliceWays(m, m', h, y, x, xp, d, n);
    SpliceReds(m, m', h, y, x, xp, d, n);
  }

  lemma SpliceRedTint(m: Mem, m': Mem, h: Node, y: Node, x: Node?, n: Node)
    requires IsSplice(m, m', h, y, x) && Linked(m, h, n) && Linked(m, h, y) && n != y
    requires Tint(m, h, n, null, null, null, Left) && Tint(m, h, y, null, null, null, Left)
    requires x != null ==> Tint(m, h, x, null, null, null, Left)
    requires m[y].color == Red
    ensures x == null && Tint(m', h, n, null, null, null, Left)
  {
  }

  lemma RenameTint(m: Mem, m': Mem, h: Node, z: Node, y: Node, n: Node)
    requires IsRename(m, m', h, z, y) && Linked(m, h, n) && Linked(m, h, z)
    requires Tint(m, h, n, null, null, null, Left)
    ensures Tint(m', h, if n == z then y else n, null, null, null, Left)
  {
  }

  lemma RedSiblingTop(m: Mem, m1: Mem, m': Mem, h: Node, d: Dir, xp: Node, w: Node, n: Node)
    requires IsRot(m, m1, h, d, xp, w) && Linked(m, h, xp) && Linked(m, h, w) && Linked(m, h, n)
    requires m[w].color == Red && !IsRed(m, m[xp].Kid(d))
    requires Tint(m, h, xp, null, null, xp, d) && Tint(m, h, w, null, null, xp, d) && Tint(m, h, n, null, null, xp, d)
    requires IsPaint(m1, m', Coat(w, Black, m[xp].bh), Coat(xp, Red, m[xp].bh - 1), Coat(null, Red, 0))
    requires n == xp || n == w
    ensures Ways(m', n, xp, d)
  {
    if d == Left {} else {}
  }

  lemma RedSiblingWays(m: Mem, m1: Mem, m': Mem, h: Node, d: Dir, xp: Node, w: Node, n: Node)
    requires IsRot(m, m1, h, d, xp, w) && Linked(m, h, xp) && Linked(m, h, w) && Linked(m, h, n)
    requires m[w].color == Red && !IsRed(m, m[xp].Kid(d))
    requires Tint(m, h, xp, null, null, xp, d) && Tint(m, h, w, null, null, xp, d) && Tint(m, h, n, null, null, xp, d)
    requires IsPaint(m1, m', Coat(w, Black, m[xp].bh), Coat(xp, Red, m[xp].bh - 1), Coat(null, Red, 0))
    ensures Ways(m', n, xp, d)
  {
    if n == xp || n == w {
      RedSiblingTop(m, m1, m', h, d, xp, w, n);
    } else {
      RotElse(m, m1, m', h, d, xp, w,
              Coat(w, Black, m[xp].bh), Coat(xp, Red, m[xp].bh - 1), Coat(null, Red, 0),
              n, xp, d, xp, d);
    }
  }

  lemma RedSiblingReds(m: Mem, m1: Mem, m': Mem, h: Node, d: Dir, xp: Node, w: Node, n: Node)
    requires IsRot(m, m1, h, d, xp, w) && Linked(m, h, xp) && Linked(m, h, w) && Linked(m, h, n)
    requires m[w].color == Red && !IsRed(m, m[xp].Kid(d))
    requires Tint(m, h, xp, null, null, xp, d) && Tint(m, h, w, null, null, xp, d) && Tint(m, h, n, null, null, xp, d)
    requires IsPaint(m1, m', Coat(w, Black, m[xp].bh), Coat(xp, Red, m[xp].bh - 1), Coat(null, Red, 0))
    ensures Reds(m', h, n, null, null)
  {
    if d == Left {} else {}
  }

  lemma PaleWays(m: Mem, m': Mem, h: Node, d: Dir, xp: Node, w: Node, xp': Node?, d': Dir, n: Node)
    requires Linked(m, h, xp) && Linked(m, h, w) && Linked(m, h, n) && m[xp].Kid(d.Opp()) == w
    requires m[w].color == Black && !IsRed(m, m[w].left) && !IsRed(m, m[w].right)
    requires Tint(m, h, xp, null, null, xp, d) && Tint(m, h, w, null, null, xp, d) && Tint(m, h, n, null, null, xp, d)
    requires IsSlot(m, h, xp, xp', d')
    requires IsPaint(m, m', Coat(w, Red, m[w].bh - 1), Coat(xp, m[xp].color, m[xp].bh - 1), Coat(null, Red, 0))
    ensures Ways(m', n, xp', d')
  {
    if d == Left {} else {}
  }

  lemma PaleReds(m: Mem, m': Mem, h: Node, d: Dir, xp: Node, w: Node, xp': Node?, d': Dir, n: Node)
    requires Linked(m, h, xp) && Linked(m, h, w) && Linked(m, h, n) && m[xp].Kid(d.Opp()) == w
    requires m[w].color == Black && !IsRed(m, m[w].left) && !IsRed(m, m[w].right)
    requires Tint(m, h, xp, null, null, xp, d) && Tint(m, h, w, null, null, xp, d) && Tint(m, h, n, null, null, xp, d)
    requires IsSlot(m, h, xp, xp', d')
    requires IsPaint(m, m', Coat(w, Red, m[w].bh - 1), Coat(xp, m[xp].color, m[xp].bh - 1), Coat(null, Red, 0))
    ensures Reds(m', h, n, xp, xp)
  {
    if d == Left {} else {}
  }

  lemma PaleTint(m: Mem, m': Mem, h: Node, d: Dir, xp: Node, w: Node, xp': Node?, d': Dir, n: Node)
    requires Linked(m, h, xp) && Linked(m, h, w) && Linked(m, h, n) && m[xp].Kid(d.Opp()) == w
    requires m[w].color == Black && !IsRed(m, m[w].left) && !IsRed(m, m[w].right)
    requires Tint(m, h, xp, null, null, xp, d) && Tint(m, h, w, null, null, xp, d) && Tint(m, h, n, null, null, xp, d)
    requires IsSlot(m, h, xp, xp', d')
    requires IsPaint(m, m', Coat(w, Red, m[w].bh - 1), Coat(xp, m[xp].color, m[xp].bh - 1), Coat(null, Red, 0))
    ensures Tint(m', h, n, xp, xp, xp', d')
  {
    PaleWays(m, m', h, d, xp, w, xp', d', n);
    PaleReds(m, m', h, d, xp, w, xp', d', n);
  }

  lemma NearRedTop(m: Mem, m1: Mem, m': Mem, h: Node, d: Dir, xp: Node, w: Node, k: Node, n: Node)
    requires IsRot(m, m1, h, d.Opp(), w, k) && Linked(m, h, xp) && Linked(m, h, w) && Linked(m, h, k) && Linked(m, h, n)
    requires m[xp].Kid(d.Opp()) == w && m[w].color == Black && m[k].color == Red && !IsRed(m, m[w].Kid(d.Opp()))
    requires Tint(m, h, w, null, null, xp, d) && Tint(m, h, k, null, null, xp, d) && Tint(m, h, n, null, null, xp, d)
    requires IsPaint(m1, m', Coat(k, Black, m[w].bh), Coat(w, Red, m[w].bh - 1), Coat(null, Red, 0))
    requires n == w || n == k
    ensures Ways(m', n, xp, d)
  {
    if d == Left {} else {}
  }

  lemma NearRedWays(m: Mem, m1: Mem, m': Mem, h: Node, d: Dir, xp: Node, w: Node, k: Node, n: Node)
    requires IsRot(m, m1, h, d.Opp(), w, k) && Linked(m, h, xp) && Linked(m, h, w) && Linked(m, h, k) && Linked(m, h, n)
    requires m[xp].Kid(d.Opp()) == w && m[w].color == Black && m[k].color == Red && !IsRed(m, m[w].Kid(d.Opp()))
    requires Tint(m, h, w, null, null, xp, d) && Tint(m, h, k, null, null, xp, d) && Tint(m, h, n, null, null, xp, d)
    requires IsPaint(m1, m', Coat(k, Black, m[w].bh), Coat(w, Red, m[w].bh - 1), Coat(null, Red, 0))
    ensures Ways(m', n, xp, d)
  {
    if n == w || n == k {
      NearRedTop(m, m1, m', h, d, xp, w, k, n);
    } else {
      RotElse(m, m1, m', h, d.Opp(), w, k,
              Coat(k, Black, m[w].bh), Coat(w, Red, m[w].bh - 1), Coat(null, Red, 0),
              n, xp, d, xp, d);
    }
  }

  lemma NearRedReds(m: Mem, m1: Mem, m': Mem, h: Node, d: Dir, xp: Node, w: Node, k: Node, n: Node)
    requires IsRot(m, m1, h, d.Opp(), w, k) && Linked(m, h, xp) && Linked(m, h, w) && Linked(m, h, k) && Linked(m, h, n)
    requires m[xp].Kid(d.Opp()) == w && m[w].color == Black && m[k].color == Red && !IsRed(m, m[w].Kid(d.Opp()))
    requires Tint(m, h, w, null, null, xp, d) && Tint(m, h, k, null, null, xp, d) && Tint(m, h, n, null, null, xp, d)
    requires IsPaint(m1, m', Coat(k, Black, m[w].bh), Coat(w, Red, m[w].bh - 1), Coat(null, Red, 0))
    ensures Reds(m', h, n, null, null)
  {
    if d == Left {} else {}
  }

  lemma FarRedTop(m: Mem, m1: Mem, m': Mem, h: Node, d: Dir, xp: Node, w: Node, k: Node, n: Node)
    requires IsRot(m, m1, h, d, xp, w) && Linked(m, h, xp) && Linked(m, h, w) && Linked(m, h, n)
    requires m[w].color == Black && m[w].Kid(d.Opp()) == k && k in m && m[k].color == Red
    requires Tint(m, h, xp, null, null, xp, d) && Tint(m, h, w, null, null, xp, d) && Tint(m, h, n, null, null, xp, d)
    requires IsPaint(m1, m', Coat(w, m[xp].color, m[xp].bh), Coat(xp, Black, m[w].bh), Coat(k, Black, m[k].bh + 1))
    requires n == xp || n == w
    ensures Ways(m', n, null, Left)
  {
    if d == Left {} else {}
  }

  lemma FarRedWays(m: Mem, m1: Mem, m': Mem, h: Node, d: Dir, xp: Node, w: Node, k: Node, n: Node)
    requires IsRot(m, m1, h, d, xp, w) && Linked(m, h, xp) && Linked(m, h, w) && Linked(m, h, n)
    requires m[w].color == Black && m[w].Kid(d.Opp()) == k && k in m && m[k].color == Red
    requires Tint(m, h, xp, null, null, xp, d) && Tint(m, h, w, null, null, xp, d) && Tint(m, h, n, null, null, xp, d)
    requires IsPaint(m1, m', Coat(w, m[xp].color, m[xp].bh), Coat(xp, Black, m[w].bh), Coat(k, Black, m[k].bh + 1))
    ensures Ways(m', n, null, Left)
  {
    if n == xp || n == w {
      FarRedTop(m, m1, m', h, d, xp, w, k, n);
    } else {
      RotElse(m, m1, m', h, d, xp, w,
              Coat(w, m[xp].color, m[xp].bh), Coat(xp, Black, m[w].bh), Coat(k, Black, m[k].bh + 1),
              n, xp, d, null, Left);
    }
  }

  lemma FarRedReds(m: Mem, m1: Mem, m': Mem, h: Node, d: Dir, xp: Node, w: Node, k: Node, n: Node)
    requires IsRot(m, m1, h, d, xp, w) && Linked(m, h, xp) && Linked(m, h, w) && Linked(m, h, n)
    requires m[w].color == Black && m[w].Kid(d.Opp()) == k && k in m && m[k].color == Red
    requires Tint(m, h, xp, null, null, xp, d) && Tint(m, h, w, null, null, xp, d) && Tint(m, h, n, null, null, xp, d)
    requires IsPaint(m1, m', Coat(w, m[xp].color, m[xp].bh), Coat(xp, Black, m[w].bh), Coat(k, Black, m[k].bh + 1))
    ensures Reds(m', h, n, null, null)
  {
    if d == Left {} else {}
  }

  lemma LastTint(m: Mem, m': Mem, h: Node, x: Node, xp: Node?, d: Dir, n: Node)
    requires Linked(m, h, x) && Linked(m, h, n) && m[x].color == Red && IsSlot(m, h, x, xp, d)
    requires Tint(m, h, x, x, x, xp, d) && Tint(m, h, n, x, x, xp, d)
    requires IsPaint(m, m', Coat(x, Black, m[x].bh + 1), Coat(null, Red, 0), Coat(null, Red, 0))
    ensures Tint(m', h, n, null, null, null, Left)
  {
    if d == Left {} else {}
  }
}
