/** The link structure of Oscl_Rb_Tree as an immutable snapshot.  It maps every node of the tree, and
    its header sentinel, to a Cell: the colour and the three links that the node really holds,
    together with four ghost coordinates that pin down where the node sits.  With s the in-order
    sequence of nodes, a node at position pos roots a subtree that occupies exactly the positions
    lo..hi of s, and bh counts the black nodes on every way down from it.  Everything a red-black
    tree promises is then a condition on one node and its neighbours, so each restructuring step is
    proved one node at a time. */
module RbLinks {
  import opened SeqEdits

  type Key(!new, ==, 0)
  type Val(0)

  datatype Color = Red | Black

  datatype Dir = Left | Right {
    function Opp(): (d: Dir)
      ensures d != this && (d == Left || d == Right)
    {
      if this == Left then Right else Left
    }
  }

  /** Oscl_Rb_Tree_Node_Base and Oscl_Rb_Tree_Node: the links and the stored pair. */
  class Node {
    var color: Color
    var parent: Node?
    var left: Node?
    var right: Node?
    const key: Key
    var val: Val

    constructor Header()
      ensures color == Red && parent == null && left == this && right == this
    {
      color, parent, left, right := Red, null, this, this;
    }

    constructor (k: Key, v: Val)
      ensures key == k && val == v && color == Red && parent == left == right == null
    {
      key, val, color, parent, left, right := k, v, Red, null, null, null;
    }
  }

  datatype Cell = Cell(color: Color, parent: Node?, left: Node?, right: Node?,
                       pos: int, lo: int, hi: int, bh: int)
  {
    ghost function Kid(d: Dir): Node? {
      if d == Left then left else right
    }

    ghost function WithKid(d: Dir, k: Node?): Cell {
      if d == Left then this.(left := k) else this.(right := k)
    }

    // Where the subtree on side d of this cell lies.
    ghost function KidLo(d: Dir): int {
      if d == Left then lo else pos + 1
    }

    ghost function KidHi(d: Dir): int {
      if d == Left then pos else hi
    }
  }

  type Mem = map<Node, Cell>

  // ---------------------------------------------------------------- shape

  ghost predicate SpanOk(m: Mem, s: seq<Node>, n: Node)
    requires n in m
  {
    0 <= m[n].lo <= m[n].pos < m[n].hi <= |s| && s[m[n].pos] == n
  }

  ghost predicate KidOk(m: Mem, h: Node, n: Node, d: Dir)
    requires n in m
  {
    var k := m[n].Kid(d);
    if k == null then m[n].KidLo(d) == m[n].KidHi(d)
    else k in m && k != h && m[k].parent == n && m[k].lo == m[n].KidLo(d) && m[k].hi == m[n].KidHi(d)
  }

  ghost predicate UpOk(m: Mem, h: Node, len: int, n: Node)
    requires n in m && h in m
  {
    if m[h].parent == n then m[n].parent == h && m[n].lo == 0 && m[n].hi == len
    else
      var p := m[n].parent;
      p != null && p != h && p in m && (m[p].left == n || m[p].right == n)
  }

  ghost predicate At(m: Mem, h: Node, s: seq<Node>, n: Node)
    requires n in m && h in m
  {
    SpanOk(m, s, n) && KidOk(m, h, n, Left) && KidOk(m, h, n, Right) && UpOk(m, h, |s|, n)
  }

  ghost predicate Ordered(m: Mem, h: Node, s: seq<Node>) {
    forall i :: 0 <= i < |s| ==> s[i] in m && s[i] != h && m[s[i]].pos == i
  }

  /** The links form one binary tree under the header whose in-order sequence is s. */
  ghost predicate Shaped(m: Mem, h: Node, s: seq<Node>) {
    && h in m
    && (m[h].parent == null <==> s == [])
    && (m[h].parent != null ==> m[h].parent in m && m[h].parent != h)
    && Ordered(m, h, s)
    && (forall n {:trigger At(m, h, s, n)} :: n in m && n != h ==> At(m, h, s, n))
  }

  // ---------------------------------------------------------------- rotation

  ghost function RotCell(m: Mem, h: Node, d: Dir, x: Node, y: Node, n: Node): Cell
    requires n in m && x in m && y in m
  {
    var c, b, p := m[n], m[y].Kid(d), m[x].parent;
    Cell(c.color,
         if n == x then y else if n == y then p else if n == b then x else if n == h && n == p then y else c.parent,
         if n == y && d == Left then x else if n == x && d == Right then b
         else if n == p && n != h && c.left == x then y else c.left,
         if n == y && d == Right then x else if n == x && d == Left then b
         else if n == p && n != h && c.right == x then y else c.right,
         c.pos,
         if n == y then m[x].lo else if n == x && d == Right then m[y].pos + 1 else c.lo,
         if n == y then m[x].hi else if n == x && d == Left then m[y].pos else c.hi,
         c.bh)
  }

  /** m' is m after x went down on side d and its other child y came up in its place. */
  ghost predicate IsRot(m: Mem, m': Mem, h: Node, d: Dir, x: Node, y: Node) {
    && x in m && y in m && x != h && m[x].Kid(d.Opp()) == y
    && m'.Keys == m.Keys
    && forall n {:trigger m'[n]} :: n in m ==> m'[n] == RotCell(m, h, d, x, y, n)
  }

  /** The facts about n and the nodes around it that a step which touches x can rely on. */
  ghost predicate Near(m: Mem, h: Node, s: seq<Node>, n: Node) {
    && h in m && n in m && n != h && At(m, h, s, n)
    && (m[n].left != null ==> At(m, h, s, m[n].left))
    && (m[n].right != null ==> At(m, h, s, m[n].right))
    && (m[h].parent != n ==> At(m, h, s, m[n].parent))
  }

  lemma NonEmpty(m: Mem, h: Node, s: seq<Node>, n: Node)
    requires Shaped(m, h, s) && n in m && n != h
    ensures s != []
  {
    assert At(m, h, s, n);
  }

  lemma NearOf(m: Mem, h: Node, s: seq<Node>, n: Node)
    requires Shaped(m, h, s) && n in m && n != h
    ensures Near(m, h, s, n)
  {
    assert At(m, h, s, n);
    assert m[n].left != null ==> At(m, h, s, m[n].left);
    assert m[n].right != null ==> At(m, h, s, m[n].right);
    assert m[h].parent != n ==> At(m, h, s, m[n].parent);
  }

  lemma RotSpan(m: Mem, m': Mem, h: Node, s: seq<Node>, d: Dir, x: Node, y: Node, n: Node)
    requires IsRot(m, m', h, d, x, y) && Near(m, h, s, n) && Near(m, h, s, x) && Near(m, h, s, y)
    ensures SpanOk(m', s, n)
  {
    if d == Left {} else {}
  }

  lemma RotKidLower(m: Mem, m': Mem, h: Node, s: seq<Node>, d: Dir, x: Node, y: Node, e: Dir)
    requires IsRot(m, m', h, d, x, y) && Near(m, h, s, x) && Near(m, h, s, y)
    ensures KidOk(m', h, x, e)
  {
    if d == Left {} else {}
  }

  lemma RotKidUpper(m: Mem, m': Mem, h: Node, s: seq<Node>, d: Dir, x: Node, y: Node, e: Dir)
    requires IsRot(m, m', h, d, x, y) && Near(m, h, s, x) && Near(m, h, s, y)
    ensures KidOk(m', h, y, e)
  {
    if d == Left {} else {}
  }

  lemma RotKidElse(m: Mem, m': Mem, h: Node, s: seq<Node>, d: Dir, x: Node, y: Node, n: Node, e: Dir)
    requires IsRot(m, m', h, d, x, y) && Near(m, h, s, n) && Near(m, h, s, x) && n != x && n != y
    ensures KidOk(m', h, n, e)
  {
    if d == Left {} else {}
  }

  lemma RotUpTop(m: Mem, m': Mem, h: Node, s: seq<Node>, d: Dir, x: Node, y: Node, n: Node)
    requires IsRot(m, m', h, d, x, y) && Near(m, h, s, x) && Near(m, h, s, y) && (n == x || n == y)
    ensures UpOk(m', h, |s|, n)
  {
    if d == Left {} else {}
  }

  lemma RotUpElse(m: Mem, m': Mem, h: Node, s: seq<Node>, d: Dir, x: Node, y: Node, n: Node)
    requires IsRot(m, m', h, d, x, y) && Near(m, h, s, n) && Near(m, h, s, x) && Near(m, h, s, y) && n != x && n != y
    ensures UpOk(m', h, |s|, n)
  {
    if d == Left {} else {}
  }

  lemma RotAt(m: Mem, m': Mem, h: Node, s: seq<Node>, d: Dir, x: Node, y: Node, n: Node)
    requires IsRot(m, m', h, d, x, y) && Near(m, h, s, n) && Near(m, h, s, x) && Near(m, h, s, y)
    ensures At(m', h, s, n)
  {
    hide SpanOk, KidOk, UpOk, IsRot;
    RotSpan(m, m', h, s, d, x, y, n);
    if n == x {
      RotKidLower(m, m', h, s, d, x, y, Left);
      RotKidLower(m, m', h, s, d, x, y, Right);
      RotUpTop(m, m', h, s, d, x, y, n);
    } else if n == y {
      RotKidUpper(m, m', h, s, d, x, y, Left);
      RotKidUpper(m, m', h, s, d, x, y, Right);
      RotUpTop(m, m', h, s, d, x, y, n);
    } else {
      RotKidElse(m, m', h, s, d, x, y, n, Left);
      RotKidElse(m, m', h, s, d, x, y, n, Right);
      RotUpElse(m, m', h, s, d, x, y, n);
    }
  }

  lemma RotShaped(m: Mem, m': Mem, h: Node, s: seq<Node>, d: Dir, x: Node, y: Node)
    requires Shaped(m, h, s) && IsRot(m, m', h, d, x, y)
    ensures Shaped(m', h, s)
  {
    NearOf(m, h, s, x);
    NearOf(m, h, s, y);
    forall n | n in m' && n != h
      ensures At(m', h, s, n)
    {
      NearOf(m, h, s, n);
      RotAt(m, m', h, s, d, x, y, n);
    }
  }

  // ---------------------------------------------------------------- hanging a new leaf

  // The position a new node takes when it is hung on side d of y, or under the empty header.
  ghost function LeafPos(m: Mem, h: Node, y: Node, d: Dir): int
    requires y in m
  {
    if y == h then 0 else m[y].KidHi(d)
  }

  ghost function LeafCell(m: Mem, h: Node, y: Node, d: Dir, z: Node, n: Node): Cell
    requires n in m && y in m
  {
    var c, k := m[n], LeafPos(m, h, y, d);
    var t := if d == Left then k else k - 1;
    Cell(c.color, c.parent,
         if n == y && d == Left then z else c.left,
         if n == y && d == Right then z else c.right,
         if c.pos >= k then c.pos + 1 else c.pos,
         if c.lo > t then c.lo + 1 else c.lo,
         if c.hi > t then c.hi + 1 else c.hi,
         c.bh)
  }

  /** m' is m with the new node z hung on the empty side d of y. */
  ghost predicate IsLeaf(m: Mem, m': Mem, h: Node, y: Node, d: Dir, z: Node) {
    && h in m && y in m && z !in m
    && (if y == h then m[h].parent == null else m[y].Kid(d) == null)
    && m'.Keys == m.Keys + {z}
    && m'[h].parent == (if y == h then z else m[h].parent)
    && (forall n {:trigger m'[n]} :: n in m && n != h ==> m'[n] == LeafCell(m, h, y, d, z, n))
    && var k := LeafPos(m, h, y, d);
       m'[z].(color := Red, bh := 0) == Cell(Red, y, null, null, k, k, k + 1, 0)
  }

  lemma LeafSpan(m: Mem, m': Mem, h: Node, s: seq<Node>, y: Node, d: Dir, z: Node, n: Node)
    requires IsLeaf(m, m', h, y, d, z) && y != h && Near(m, h, s, n) && Near(m, h, s, y)
    requires Ordered(m, h, s)
    ensures 0 <= LeafPos(m, h, y, d) <= |s|
    ensures SpanOk(m', InsertAt(s, LeafPos(m, h, y, d), z), n)
  {
    if d == Left {} else {}
  }

  lemma LeafLinks(m: Mem, m': Mem, h: Node, s: seq<Node>, y: Node, d: Dir, z: Node, n: Node)
    requires IsLeaf(m, m', h, y, d, z) && y != h && Near(m, h, s, n) && Near(m, h, s, y)
    requires m[y].pos == m[n].pos ==> y == n
    ensures KidOk(m', h, n, Left) && KidOk(m', h, n, Right) && UpOk(m', h, |s| + 1, n)
  {
    if d == Left {} else {}
  }

  lemma LeafFirst(m: Mem, m': Mem, h: Node, d: Dir, z: Node)
    requires Shaped(m, h, []) && IsLeaf(m, m', h, h, d, z)
    ensures Shaped(m', h, [z])
  {
    forall n | n in m && n != h ensures false { NonEmpty(m, h, [], n); }
    assert At(m', h, [z], z);
  }

  lemma LeafOrder(m: Mem, m': Mem, h: Node, s: seq<Node>, y: Node, d: Dir, z: Node)
    requires IsLeaf(m, m', h, y, d, z) && y != h && Near(m, h, s, y) && Ordered(m, h, s)
    ensures Ordered(m', h, InsertAt(s, LeafPos(m, h, y, d), z))
  {
  }

  lemma LeafShaped(m: Mem, m': Mem, h: Node, s: seq<Node>, y: Node, d: Dir, z: Node)
    requires Shaped(m, h, s) && IsLeaf(m, m', h, y, d, z)
    ensures 0 <= LeafPos(m, h, y, d) <= |s|
    ensures Shaped(m', h, InsertAt(s, LeafPos(m, h, y, d), z))
  {
    var k := LeafPos(m, h, y, d);
    if y == h {
      assert s == [] && InsertAt(s, k, z) == [z];
      LeafFirst(m, m', h, d, z);
    } else {
      NearOf(m, h, s, y);
      LeafSpan(m, m', h, s, y, d, z, y);
      var s' := InsertAt(s, k, z);
      forall n | n in m && n != h
        ensures At(m', h, s', n)
      {
        NearOf(m, h, s, n);
        LeafSpan(m, m', h, s, y, d, z, n);
        LeafLinks(m, m', h, s, y, d, z, n);
      }
      LeafNew(m, m', h, s, y, d, z);
      LeafOrder(m, m', h, s, y, d, z);
    }
  }

  lemma LeafNew(m: Mem, m': Mem, h: Node, s: seq<Node>, y: Node, d: Dir, z: Node)
    requires IsLeaf(m, m', h, y, d, z) && y != h && Near(m, h, s, y) && m[h].parent != z
    ensures At(m', h, InsertAt(s, LeafPos(m, h, y, d), z), z)
  {
  }

  // ---------------------------------------------------------------- unlinking a node

  ghost function SpliceCell(m: Mem, h: Node, y: Node, x: Node?, n: Node): Cell
    requires n in m && y in m
  {
    var c, k := m[n], m[y].pos;
    Cell(c.color,
         if n == x then m[y].parent else if n == h && c.parent == y then x else c.parent,
         if n != h && c.left == y then x else c.left,
         if n != h && c.right == y then x else c.right,
         if c.pos > k then c.pos - 1 else c.pos,
         if c.lo > k then c.lo - 1 else c.lo,
         if c.hi > k then c.hi - 1 else c.hi,
         c.bh)
  }

  /** m' is m with y, whose only child (if any) is x, unlinked and x put in its place. */
  ghost predicate IsSplice(m: Mem, m': Mem, h: Node, y: Node, x: Node?) {
    && h in m && y in m && y != h
    && ((m[y].left == null && m[y].right == x) || (m[y].right == null && m[y].left == x))
    && m'.Keys == m.Keys - {y}
    && forall n {:trigger m'[n]} :: n in m && n != y ==> m'[n] == SpliceCell(m, h, y, x, n)
  }

  lemma SpliceSpan(m: Mem, m': Mem, h: Node, s: seq<Node>, y: Node, x: Node?, n: Node)
    requires IsSplice(m, m', h, y, x) && n != y && Near(m, h, s, n) && Near(m, h, s, y)
    requires Ordered(m, h, s)
    ensures SpanOk(m', RemoveAt(s, m[y].pos), n)
  {
    hide UpOk;
  }

  // The node above y.
  lemma SpliceKidAbove(m: Mem, m': Mem, h: Node, s: seq<Node>, y: Node, x: Node?, n: Node, d: Dir)
    requires IsSplice(m, m', h, y, x) && n != y && Near(m, h, s, n) && Near(m, h, s, y) && m[n].Kid(d) == y
    ensures KidOk(m', h, n, d)
  {
    hide UpOk;
    if d == Left {} else {}
  }

  lemma SpliceKidElse(m: Mem, m': Mem, h: Node, s: seq<Node>, y: Node, x: Node?, n: Node, d: Dir)
    requires IsSplice(m, m', h, y, x) && n != y && Near(m, h, s, n) && Near(m, h, s, y) && m[n].Kid(d) != y
    ensures KidOk(m', h, n, d)
  {
    hide UpOk;
    if d == Left {} else {}
  }

  lemma SpliceUp(m: Mem, m': Mem, h: Node, s: seq<Node>, y: Node, x: Node?, n: Node)
    requires IsSplice(m, m', h, y, x) && n != y && Near(m, h, s, n) && Near(m, h, s, y)
    ensures UpOk(m', h, |s| - 1, n)
  {
    if n == x {} else {}
  }

  lemma SpliceOrder(m: Mem, m': Mem, h: Node, s: seq<Node>, y: Node, x: Node?)
    requires IsSplice(m, m', h, y, x) && Near(m, h, s, y) && Ordered(m, h, s)
    ensures Ordered(m', h, RemoveAt(s, m[y].pos))
  {
  }

  lemma SpliceAt(m: Mem, m': Mem, h: Node, s: seq<Node>, y: Node, x: Node?, n: Node)
    requires IsSplice(m, m', h, y, x) && n != y && Near(m, h, s, n) && Near(m, h, s, y)
    requires Ordered(m, h, s)
    ensures 0 <= m[y].pos < |s| && At(m', h, RemoveAt(s, m[y].pos), n)
  {
    hide KidOk, UpOk, IsSplice;
    SpliceSpan(m, m', h, s, y, x, n);
    if m[n].Kid(Left) == y {
      SpliceKidAbove(m, m', h, s, y, x, n, Left);
    } else {
      SpliceKidElse(m, m', h, s, y, x, n, Left);
    }
    if m[n].Kid(Right) == y {
      SpliceKidAbove(m, m', h, s, y, x, n, Right);
    } else {
      SpliceKidElse(m, m', h, s, y, x, n, Right);
    }
    SpliceUp(m, m', h, s, y, x, n);
  }

  lemma SpliceShaped(m: Mem, m': Mem, h: Node, s: seq<Node>, y: Node, x: Node?)
    requires Shaped(m, h, s) && IsSplice(m, m', h, y, x)
    ensures 0 <= m[y].pos < |s| && s[m[y].pos] == y
    ensures Shaped(m', h, RemoveAt(s, m[y].pos))
  {
    NearOf(m, h, s, y);
    var s' := RemoveAt(s, m[y].pos);
    SpliceOrder(m, m', h, s, y, x);
    forall n | n in m' && n != h
      ensures At(m', h, s', n)
    {
      NearOf(m, h, s, n);
      SpliceAt(m, m', h, s, y, x, n);
    }
  }

  // ---------------------------------------------------------------- one node takes another's place

  ghost function RenameCell(m: Mem, z: Node, y: Node, n: Node): Cell
    requires n in m
  {
    var c := m[n];
    Cell(c.color,
         if c.parent == z then y else c.parent,
         if c.left == z then y else c.left,
         if c.right == z then y else c.right,
         c.pos, c.lo, c.hi, c.bh)
  }

  /** m' is m with y standing where z stood, with z's colour and links. */
  ghost predicate IsRename(m: Mem, m': Mem, h: Node, z: Node, y: Node) {
    && h in m && z in m && z != h && y !in m
    && m'.Keys == m.Keys - {z} + {y}
    && m'[y] == m[z]
    && forall n {:trigger m'[n]} :: n in m && n != z ==> m'[n] == RenameCell(m, z, y, n)
  }

  lemma RenameSpan(m: Mem, m': Mem, h: Node, s: seq<Node>, z: Node, y: Node, n: Node)
    requires IsRename(m, m', h, z, y) && Near(m, h, s, n) && Near(m, h, s, z)
    ensures SpanOk(m', s[m[z].pos := y], if n == z then y else n)
  {
  }

  lemma RenameKid(m: Mem, m': Mem, h: Node, s: seq<Node>, z: Node, y: Node, n: Node, d: Dir)
    requires IsRename(m, m', h, z, y) && Near(m, h, s, n) && Near(m, h, s, z) && m[h].parent != y
    ensures KidOk(m', h, if n == z then y else n, d)
  {
    if d == Left {} else {}
  }

  lemma RenameUp(m: Mem, m': Mem, h: Node, s: seq<Node>, z: Node, y: Node, n: Node)
    requires IsRename(m, m', h, z, y) && Near(m, h, s, n) && Near(m, h, s, z) && m[h].parent != y
    ensures UpOk(m', h, |s|, if n == z then y else n)
  {
  }

  lemma RenameOrder(m: Mem, m': Mem, h: Node, s: seq<Node>, z: Node, y: Node)
    requires IsRename(m, m', h, z, y) && Near(m, h, s, z) && Ordered(m, h, s)
    ensures Ordered(m', h, s[m[z].pos := y])
  {
  }

  lemma RenameShaped(m: Mem, m': Mem, h: Node, s: seq<Node>, z: Node, y: Node)
    requires Shaped(m, h, s) && IsRename(m, m', h, z, y)
    ensures 0 <= m[z].pos < |s| && s[m[z].pos] == z
    ensures Shaped(m', h, s[m[z].pos := y])
  {
    NearOf(m, h, s, z);
    var s' := s[m[z].pos := y];
    RenameOrder(m, m', h, s, z, y);
    forall n | n in m' && n != h
      ensures At(m', h, s', n)
    {
      var n0 := if n == y then z else n;
      NearOf(m, h, s, n0);
      RenameSpan(m, m', h, s, z, y, n0);
      RenameKid(m, m', h, s, z, y, n0, Left);
      RenameKid(m, m', h, s, z, y, n0, Right);
      RenameUp(m, m', h, s, z, y, n0);
    }
  }
}