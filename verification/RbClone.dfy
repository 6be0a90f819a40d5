/** The structural copy of a tree, on snapshots: cl sends each node copied so far to its clone. */
module RbClone {
  import opened RbLinks
  import opened RbColors
  import opened RbSteps

  type Clones = map<Node, Node>

  ghost function Twin(cl: Clones, k: Node?): Node? {
    if k != null && k in cl then cl[k] else null
  }

  /** The clone of n: the same colour and place, with links to the clones of n's neighbours.
      The clone of x, the top of the part copied, hangs on p. */
  ghost function CloneCell(m: Mem, cl: Clones, x: Node, p: Node, n: Node): Cell
    requires n in m
  {
    m[n].(parent := if n == x then p else Twin(cl, m[n].parent),
          left := Twin(cl, m[n].left), right := Twin(cl, m[n].right))
  }

  // cl holds exactly the nodes at positions lo..hi.
  ghost predicate Covers(m: Mem, h: Node, cl: Clones, lo: int, hi: int) {
    && (forall n :: n in cl ==> n in m)
    && (forall n {:trigger n in cl} {:trigger m[n]} :: n in m ==> (n in cl <==> n != h && lo <= m[n].pos < hi))
  }

  ghost predicate ClosedAt(m: Mem, cl: Clones, x: Node, n: Node) {
    n in m && (n == x || (m[n].parent != null && m[n].parent in cl)) && (m[n].right == null || m[n].right in cl)
  }

  // Every node of cl but the top brings its parent, and every one its right subtree.
  ghost predicate Closed(m: Mem, cl: Clones, x: Node) {
    forall n {:trigger cl[n]} :: n in cl ==> ClosedAt(m, cl, x, n)
  }

  ghost predicate ClonedAt(m: Mem, cl: Clones, m': Mem, x: Node, p: Node, n: Node) {
    n in m && n in cl && cl[n] in m' && m'[cl[n]] == CloneCell(m, cl, x, p, n)
  }

  ghost predicate Cloned(m: Mem, cl: Clones, m': Mem, x: Node, p: Node) {
    && Closed(m, cl, x)
    && forall n {:trigger cl[n]} :: n in cl ==> ClonedAt(m, cl, m', x, p, n)
  }

  // The new nodes are new.
  ghost predicate Unmixed(cl: Clones, m: Mem) {
    forall n {:trigger cl[n]} :: n in cl ==> cl[n] !in m
  }

  ghost predicate Extends(m: Mem, m': Mem, cl: Clones) {
    && (forall n {:trigger m'[n]} :: n in m ==> n in m' && m'[n] == m[n])
    && m'.Keys == m.Keys + cl.Values
  }

  lemma JoinRight(m: Mem, h: Node, s: seq<Node>, cl: Clones, m': Mem, x: Node, r: Node, top: Node, p: Node)
    requires Shaped(m, h, s) && x in m && x != h && m[x].right == r && r in m
    requires Covers(m, h, cl, m[r].lo, m[r].hi) && Cloned(m, cl, m', r, top)
    requires top in m' && m'[top] == m[x].(parent := p, left := null, right := Twin(cl, r))
    ensures Covers(m, h, cl[x := top], m[x].pos, m[x].hi) && Cloned(m, cl[x := top], m', x, p)
  {
    hide Shaped, Covers, CloneCell, ClonedAt, ClosedAt;
    var c := cl[x := top];
    JoinRightCover(m, h, s, cl, x, r, top);
    forall n | n in c
      ensures ClonedAt(m, c, m', x, p, n) && ClosedAt(m, c, x, n)
    {
      JoinRightCell(m, h, s, cl, m', x, r, top, p, n);
    }
  }

  lemma JoinRightCover(m: Mem, h: Node, s: seq<Node>, cl: Clones, x: Node, r: Node, top: Node)
    requires Shaped(m, h, s) && x in m && x != h && m[x].right == r && r in m
    requires Covers(m, h, cl, m[r].lo, m[r].hi)
    ensures Covers(m, h, cl[x := top], m[x].pos, m[x].hi)
  {
    NearOf(m, h, s, x);
    forall n | n in m && n != h
      ensures n == x <==> m[n].pos == m[x].pos
    {
      NearOf(m, h, s, n);
    }
  }

  lemma JoinRightTop(m: Mem, h: Node, s: seq<Node>, cl: Clones, m': Mem, x: Node, r: Node, top: Node, p: Node)
    requires Shaped(m, h, s) && x in m && x != h && m[x].right == r && r in m
    requires Covers(m, h, cl, m[r].lo, m[r].hi) && Cloned(m, cl, m', r, top)
    requires top in m' && m'[top] == m[x].(parent := p, left := null, right := Twin(cl, r))
    ensures var c := cl[x := top]; ClonedAt(m, c, m', x, p, x) && ClosedAt(m, c, x, x)
  {
    NearOf(m, h, s, x);
    NearOf(m, h, s, r);
    assert r in cl && x !in cl && (m[x].left != null ==> m[x].left !in cl);
  }

  lemma JoinRightApart(m: Mem, h: Node, s: seq<Node>, cl: Clones, x: Node, r: Node, n: Node)
    requires Shaped(m, h, s) && x in m && x != h && m[x].right == r && r in m
    requires Covers(m, h, cl, m[r].lo, m[r].hi) && n in cl
    ensures n in m && n != x && x !in cl && m[n].left != x && m[n].right != x && r in cl && m[r].parent == x
    ensures n != r ==> m[n].parent != x
  {
    NearOf(m, h, s, x);
    NearOf(m, h, s, r);
    NearOf(m, h, s, n);
  }

  lemma JoinRightBelow(m: Mem, h: Node, s: seq<Node>, cl: Clones, m': Mem, x: Node, r: Node, top: Node, p: Node,
                       n: Node)
    requires Shaped(m, h, s) && x in m && x != h && m[x].right == r && r in m
    requires Covers(m, h, cl, m[r].lo, m[r].hi) && Cloned(m, cl, m', r, top)
    requires top in m' && m'[top] == m[x].(parent := p, left := null, right := Twin(cl, r))
    requires n in cl
    ensures var c := cl[x := top]; n != x && ClonedAt(m, c, m', x, p, n) && ClosedAt(m, c, x, n)
  {
    hide Shaped, Covers;
    JoinRightApart(m, h, s, cl, x, r, n);
    assert cl[n] == cl[n];
  }

  lemma JoinRightCell(m: Mem, h: Node, s: seq<Node>, cl: Clones, m': Mem, x: Node, r: Node, top: Node, p: Node, n: Node)
    requires Shaped(m, h, s) && x in m && x != h && m[x].right == r && r in m
    requires Covers(m, h, cl, m[r].lo, m[r].hi) && Cloned(m, cl, m', r, top)
    requires top in m' && m'[top] == m[x].(parent := p, left := null, right := Twin(cl, r))
    requires n in cl || n == x
    ensures var c := cl[x := top]; ClonedAt(m, c, m', x, p, n) && ClosedAt(m, c, x, n)
  {
    hide *;
    if n == x {
      JoinRightTop(m, h, s, cl, m', x, r, top, p);
    } else {
      JoinRightBelow(m, h, s, cl, m', x, r, top, p, n);
    }
  }

  lemma JoinNone(m: Mem, h: Node, s: seq<Node>, m': Mem, x: Node, top: Node, p: Node)
    requires Shaped(m, h, s) && x in m && x != h && m[x].right == null
    requires top in m' && m'[top] == m[x].(parent := p, left := null, right := null)
    ensures Covers(m, h, map[x := top], m[x].pos, m[x].hi) && Cloned(m, map[x := top], m', x, p)
  {
    NearOf(m, h, s, x);
    forall n | n in m && n != h
      ensures n == x <==> m[x].pos <= m[n].pos < m[x].hi
    {
      NearOf(m, h, s, n);
    }
  }

  lemma JoinCover(m: Mem, h: Node, s: seq<Node>, cl: Clones, cl2: Clones, x0: Node, q: Node, x: Node)
    requires Shaped(m, h, s) && x0 in m && q in m && q != h && x in m && x != h && m[q].left == x
    requires m[q].pos <= m[x0].hi
    requires Covers(m, h, cl, m[q].pos, m[x0].hi) && Covers(m, h, cl2, m[x].pos, m[x].hi)
    ensures Covers(m, h, cl + cl2, m[x].pos, m[x0].hi) && cl.Keys !! cl2.Keys && x in cl2 && x !in cl
  {
    NearOf(m, h, s, q);
    NearOf(m, h, s, x);
  }

  // A node of the new part.
  lemma JoinLower(m: Mem, h: Node, s: seq<Node>, cl: Clones, cl2: Clones, x0: Node, q: Node, x: Node, p: Node, n: Node)
    requires Shaped(m, h, s) && x0 in m && q in m && q != h && x in m && x != h && m[q].left == x
    requires m[q].pos <= m[x0].hi && x0 in cl && q in cl
    requires Covers(m, h, cl, m[q].pos, m[x0].hi) && Covers(m, h, cl2, m[x].pos, m[x].hi)
    requires Closed(m, cl, x0) && Closed(m, cl2, x)
    requires n in cl2
    ensures ClosedAt(m, cl + cl2, x0, n) && CloneCell(m, cl + cl2, x0, p, n) == CloneCell(m, cl2, x, cl[q], n)
  {
    JoinCover(m, h, s, cl, cl2, x0, q, x);
    NearOf(m, h, s, q);
    NearOf(m, h, s, x);
    NearOf(m, h, s, n);
    assert cl2[n] == cl2[n];
  }

  // A node of the old part; the left link of q now leads into the new one.
  lemma JoinUpper(m: Mem, h: Node, s: seq<Node>, cl: Clones, cl2: Clones, x0: Node, q: Node, x: Node, p: Node, n: Node)
    requires Shaped(m, h, s) && x0 in m && q in m && q != h && x in m && x != h && m[q].left == x
    requires m[q].pos <= m[x0].hi && x0 in cl && q in cl
    requires Covers(m, h, cl, m[q].pos, m[x0].hi) && Covers(m, h, cl2, m[x].pos, m[x].hi)
    requires Closed(m, cl, x0) && Closed(m, cl2, x)
    requires n in cl
    ensures ClosedAt(m, cl + cl2, x0, n)
    ensures var c := CloneCell(m, cl, x0, p, n);
      CloneCell(m, cl + cl2, x0, p, n) == if n == q then c.(left := Twin(cl2, x)) else c
  {
    JoinCover(m, h, s, cl, cl2, x0, q, x);
    JoinApart(m, h, s, cl, cl2, x0, q, x, n);
    assert cl[n] == cl[n];
    hide Shaped, Covers, Closed;
  }

  lemma JoinApart(m: Mem, h: Node, s: seq<Node>, cl: Clones, cl2: Clones, x0: Node, q: Node, x: Node, n: Node)
    requires Shaped(m, h, s) && x0 in m && q in m && q != h && x in m && x != h && m[q].left == x
    requires m[q].pos <= m[x0].hi && x0 in cl && q in cl
    requires Covers(m, h, cl, m[q].pos, m[x0].hi) && Covers(m, h, cl2, m[x].pos, m[x].hi)
    requires Closed(m, cl, x0) && Closed(m, cl2, x)
    requires n in cl
    ensures n in m && (m[n].left != null && m[n].left in cl2 ==> n == q) && (m[n].right != null ==> m[n].right in cl)
    ensures n != x0 ==> m[n].parent != null && m[n].parent in cl
  {
    JoinCover(m, h, s, cl, cl2, x0, q, x);
    NearOf(m, h, s, q);
    NearOf(m, h, s, x);
    NearOf(m, h, s, n);
    assert cl[n] == cl[n];
    var l := m[n].left;
    if l != null && l in cl2 {
      assert cl2[l] == cl2[l];
    }
  }

  lemma JoinLeft(m: Mem, h: Node, s: seq<Node>, cl: Clones, cl2: Clones, m1: Mem, m': Mem, x0: Node, q: Node, x: Node,
                 p: Node)
    requires Shaped(m, h, s) && x0 in m && q in m && q != h && x in m && x != h && m[q].left == x
    requires m[q].pos <= m[x0].hi && x0 in cl && q in cl
    requires Covers(m, h, cl, m[q].pos, m[x0].hi) && Cloned(m, cl, m1, x0, p)
    requires Covers(m, h, cl2, m[x].pos, m[x].hi) && Closed(m, cl2, x)
    requires forall n {:trigger cl2[n]} :: n in cl2 ==> cl2[n] in m' && m'[cl2[n]] == CloneCell(m, cl2, x, cl[q], n)
    requires forall n {:trigger cl[n]} :: n in cl ==>
      cl[n] in m' && m'[cl[n]] == if n == q then m1[cl[n]].(left := Twin(cl2, x)) else m1[cl[n]]
    ensures Covers(m, h, cl + cl2, m[x].pos, m[x0].hi) && Cloned(m, cl + cl2, m', x0, p)
  {
    JoinCover(m, h, s, cl, cl2, x0, q, x);
    var c := cl + cl2;
    forall n | n in c
      ensures ClonedAt(m, c, m', x0, p, n) && ClosedAt(m, c, x0, n)
    {
      if n in cl2 {
        JoinLower(m, h, s, cl, cl2, x0, q, x, p, n);
        assert c[n] == cl2[n];
      } else {
        JoinUpper(m, h, s, cl, cl2, x0, q, x, p, n);
        assert c[n] == cl[n];
      }
    }
  }

  /** m' is m0 with clones, named by cl, of the nodes at lo..hi; x is the top one and hangs on p. */
  ghost predicate CopyOf(m: Mem, h: Node, m0: Mem, m': Mem, cl: Clones, x: Node, p: Node, lo: int, hi: int) {
    && x in m && x != h && x in cl
    && Covers(m, h, cl, lo, hi) && Cloned(m, cl, m', x, p) && Extends(m0, m', cl) && Unmixed(cl, m0)
  }

  ghost function BareCell(m: Mem, x: Node, p: Node): Cell
    requires x in m
  {
    m[x].(parent := p, left := null, right := null)
  }

  // Setting the right link of the new top leaves the clones below it as they are.
  lemma TopCells(m: Mem, m0: Mem, m2: Mem, cl: Clones, x: Node, r: Node, top: Node, p: Node)
    requires x in m && r in cl && top !in m0 && Cloned(m, cl, m2, r, top)
    requires Extends(m0[top := BareCell(m, x, p)], m2, cl) && Unmixed(cl, m0[top := BareCell(m, x, p)])
    ensures top in m2 && m2[top] == BareCell(m, x, p)
    ensures Cloned(m, cl, m2[top := m2[top].WithKid(Right, cl[r])], r, top)
  {
    hide CloneCell, BareCell;
    forall n | n in cl
      ensures cl[n] != top
    {
      assert cl[n] == cl[n];
    }
  }

  lemma TopStep(m: Mem, h: Node, s: seq<Node>, m0: Mem, m2: Mem, cl: Clones, x: Node, r: Node, top: Node, p: Node)
    requires Shaped(m, h, s) && x in m && x != h && m[x].right == r && r in m && top !in m0
    requires CopyOf(m, h, m0[top := BareCell(m, x, p)], m2, cl, r, top, m[r].lo, m[r].hi)
    ensures top in m2
    ensures CopyOf(m, h, m0, m2[top := m2[top].WithKid(Right, cl[r])], cl[x := top], x, p, m[x].pos, m[x].hi)
  {
    TopCells(m, m0, m2, cl, x, r, top, p);
    hide Cloned, Covers, Unmixed, Shaped;
    var m' := m2[top := m2[top].WithKid(Right, cl[r])];
    JoinRight(m, h, s, cl, m', x, r, top, p);
    NearOf(m, h, s, x);
    TopExtends(m0, m2, m', cl, x, top, BareCell(m, x, p));
  }

  lemma TopExtends(m0: Mem, m2: Mem, m': Mem, cl: Clones, x: Node, top: Node, c: Cell)
    requires top !in m0 && Extends(m0[top := c], m2, cl) && Unmixed(cl, m0[top := c]) && x !in cl
    requires m'.Keys == m2.Keys && forall n {:trigger m'[n]} :: n in m2 && n != top ==> m'[n] == m2[n]
    ensures Extends(m0, m', cl[x := top]) && Unmixed(cl[x := top], m0)
  {
    TopValues(cl, x, top);
  }

  lemma TopValues(cl: Clones, x: Node, top: Node)
    requires x !in cl
    ensures cl[x := top].Values == cl.Values + {top}
  {
    var cl' := cl[x := top];
    forall v | v in cl'.Values
      ensures v in cl.Values + {top}
    {
      var n: Node :| n in cl' && cl'[n] == v;
    }
    forall v | v in cl.Values + {top}
      ensures v in cl'.Values
    {
      if v == top {
        assert cl'[x] == v;
      } else {
        var n: Node :| n in cl && cl[n] == v;
        assert n in cl' && cl'[n] == v;
      }
    }
  }

  lemma LoneStep(m: Mem, h: Node, s: seq<Node>, m0: Mem, x: Node, top: Node, p: Node)
    requires Shaped(m, h, s) && x in m && x != h && m[x].right == null && top !in m0
    ensures CopyOf(m, h, m0, m0[top := BareCell(m, x, p)], map[x := top], x, p, m[x].pos, m[x].hi)
  {
    JoinNone(m, h, s, m0[top := BareCell(m, x, p)], x, top, p);
    var cl := map[x := top];
    assert cl.Values == {top};
  }

  lemma LeftStep(m: Mem, h: Node, s: seq<Node>, m0: Mem, m1: Mem, m2: Mem, cl: Clones, cl2: Clones,
                 x0: Node, q: Node, x: Node, p: Node)
    requires Shaped(m, h, s) && x0 in m && q in cl && q in m && q != h && m[q].left == x && x in m && x != h
    requires m[q].pos <= m[x0].hi
    requires CopyOf(m, h, m0, m1, cl, x0, p, m[q].pos, m[x0].hi)
    requires CopyOf(m, h, m1, m2, cl2, x, cl[q], m[x].pos, m[x].hi)
    ensures cl[q] in m2
    ensures CopyOf(m, h, m0, m2[cl[q] := m2[cl[q]].WithKid(Left, cl2[x])], cl + cl2, x0, p, m[x].pos, m[x0].hi)
    ensures cl.Keys !! cl2.Keys && x in cl2 && x0 in cl
  {
    var m' := m2[cl[q] := m2[cl[q]].WithKid(Left, cl2[x])];
    JoinCover(m, h, s, cl, cl2, x0, q, x);
    forall n | n in cl
      ensures cl[n] in m' && m'[cl[n]] == if n == q then m1[cl[n]].(left := Twin(cl2, x)) else m1[cl[n]]
    {
      assert m2[cl[n]] == m1[cl[n]];
      TwinsDiffer(m, h, s, m1, cl, x0, p, n, q);
    }
    forall n | n in cl2
      ensures cl2[n] in m' && m'[cl2[n]] == CloneCell(m, cl2, x, cl[q], n)
    {
      assert cl2[n] !in m1 && cl[q] in m1;
    }
    JoinLeft(m, h, s, cl, cl2, m1, m', x0, q, x, p);
    LeftExtends(m0, m1, m2, m', cl, cl2, q);
  }

  lemma TwinsDiffer(m: Mem, h: Node, s: seq<Node>, m1: Mem, cl: Clones, x0: Node, p: Node, a: Node, b: Node)
    requires Shaped(m, h, s) && Cloned(m, cl, m1, x0, p) && a in cl && b in cl && a != h && b != h
    ensures a != b ==> cl[a] != cl[b]
  {
    NearOf(m, h, s, a);
    NearOf(m, h, s, b);
    assert m1[cl[a]].pos == m[a].pos && m1[cl[b]].pos == m[b].pos;
  }

  lemma LeftExtends(m0: Mem, m1: Mem, m2: Mem, m': Mem, cl: Clones, cl2: Clones, q: Node)
    requires Extends(m0, m1, cl) && Unmixed(cl, m0) && Extends(m1, m2, cl2) && Unmixed(cl2, m1)
    requires q in cl && cl.Keys !! cl2.Keys
    requires m'.Keys == m2.Keys && forall n {:trigger m'[n]} :: n in m2 && n != cl[q] ==> m'[n] == m2[n]
    ensures Extends(m0, m', cl + cl2) && Unmixed(cl + cl2, m0)
  {
    JoinValues(cl, cl2);
    forall n | n in cl + cl2
      ensures (cl + cl2)[n] !in m0
    {
      assert n in cl2 ==> (cl + cl2)[n] == cl2[n];
      assert n !in cl2 ==> (cl + cl2)[n] == cl[n];
    }
  }

  lemma JoinValues(cl: Clones, cl2: Clones)
    requires cl.Keys !! cl2.Keys
    ensures (cl + cl2).Values == cl.Values + cl2.Values
  {
    var c := cl + cl2;
    forall v | v in c.Values
      ensures v in cl.Values + cl2.Values
    {
      var n: Node :| n in c && c[n] == v;
      assert n in cl2 ==> c[n] == cl2[n];
      assert n !in cl2 ==> c[n] == cl[n];
    }
    forall v | v in cl.Values + cl2.Values
      ensures v in c.Values
    {
      if v in cl2.Values {
        var n: Node :| n in cl2 && cl2[n] == v;
        assert n in c && c[n] == v;
      } else {
        var n: Node :| n in cl && cl[n] == v;
        assert n in c && c[n] == v;
      }
    }
  }

  lemma LeftKidOf(m: Mem, h: Node, s: seq<Node>, q: Node)
    requires Shaped(m, h, s) && q in m && q != h
    ensures 0 <= m[q].lo <= m[q].pos < m[q].hi
    ensures var l := m[q].left;
      if l == null then m[q].lo == m[q].pos
      else l in m && l != h && m[l].lo == m[q].lo && m[l].lo <= m[l].pos < m[l].hi == m[q].pos
  {
    NearOf(m, h, s, q);
  }

  // ---------------------------------------------------------------- the finished copy

  ghost function CloneOrder(cl: Clones, s: seq<Node>): (t: seq<Node>)
    requires forall i :: 0 <= i < |s| ==> s[i] in cl
    ensures |t| == |s| && forall i :: 0 <= i < |s| ==> t[i] == cl[s[i]]
  {
    seq(|s|, i requires 0 <= i < |s| => cl[s[i]])
  }

  /** m' is a complete copy of m under the header h'. */
  ghost predicate IsCopy(m: Mem, h: Node, s: seq<Node>, cl: Clones, m': Mem, h': Node) {
    && Shaped(m, h, s) && s != [] && m[h].parent in cl
    && Covers(m, h, cl, 0, |s|) && Cloned(m, cl, m', m[h].parent, h')
    && h' in m' && m'[h'].parent == cl[m[h].parent]
    && m'.Keys == {h'} + cl.Values
    && (forall n {:trigger cl[n]} :: n in cl ==> cl[n] != h')
  }

  // What IsCopy says of one node.
  ghost predicate TwinOk(m: Mem, h: Node, cl: Clones, m': Mem, h': Node, k: Node?) {
    k != null && k != h ==>
      && k in m && k in cl && cl[k] in m' && cl[k] != h'
      && h in m && m[h].parent != null && m'[cl[k]] == CloneCell(m, cl, m[h].parent, h', k)
  }

  ghost predicate TwinsOk(m: Mem, h: Node, s: seq<Node>, cl: Clones, m': Mem, h': Node, n: Node) {
    && Near(m, h, s, n) && n in cl
    && TwinOk(m, h, cl, m', h', n) && TwinOk(m, h, cl, m', h', m[n].parent)
    && TwinOk(m, h, cl, m', h', m[n].left) && TwinOk(m, h, cl, m', h', m[n].right)
    && m[h].parent != null && m[h].parent in cl && h' in m' && m'[h'].parent == cl[m[h].parent]
    && m[h].parent != h && m[h].parent in m && TwinOk(m, h, cl, m', h', m[h].parent)
    && (n != m[h].parent ==> m[m[h].parent].pos != m[n].pos)
  }

  lemma TwinsNear(m: Mem, h: Node, s: seq<Node>, cl: Clones, m': Mem, h': Node, n: Node)
    requires IsCopy(m, h, s, cl, m', h') && n in cl
    ensures TwinsOk(m, h, s, cl, m', h', n)
  {
    NearOf(m, h, s, n);
    NearOf(m, h, s, m[h].parent);
  }

  lemma TwinKid(m: Mem, h: Node, s: seq<Node>, cl: Clones, m': Mem, h': Node, n: Node, d: Dir)
    requires TwinsOk(m, h, s, cl, m', h', n)
    ensures cl[n] in m' && KidOk(m', h', cl[n], d)
  {
    if d == Left {} else {}
  }

  lemma TwinUp(m: Mem, h: Node, s: seq<Node>, cl: Clones, m': Mem, h': Node, n: Node)
    requires TwinsOk(m, h, s, cl, m', h', n)
    ensures cl[n] in m' && h' in m' && UpOk(m', h', |s|, cl[n])
  {
    if m[h].parent == n {} else {}
  }

  lemma TwinTint(m: Mem, h: Node, s: seq<Node>, cl: Clones, m': Mem, h': Node, n: Node)
    requires TwinsOk(m, h, s, cl, m', h', n) && Tint(m, h, n, null, null, null, Left)
    ensures cl[n] in m' && Tint(m', h', cl[n], null, null, null, Left)
  {
  }

  lemma CopyAt(m: Mem, h: Node, s: seq<Node>, cl: Clones, m': Mem, h': Node, n: Node)
    requires IsCopy(m, h, s, cl, m', h') && RedBlack(m, h) && n in cl
    requires forall i :: 0 <= i < |s| ==> s[i] in cl
    ensures cl[n] in m' && At(m', h', CloneOrder(cl, s), cl[n]) && Tint(m', h', cl[n], null, null, null, Left)
  {
    hide IsCopy, KidOk, UpOk, Tint;
    TwinsNear(m, h, s, cl, m', h', n);
    TwinKid(m, h, s, cl, m', h', n, Left);
    TwinKid(m, h, s, cl, m', h', n, Right);
    TwinUp(m, h, s, cl, m', h', n);
    assert Tint(m, h, n, null, null, null, Left);
    TwinTint(m, h, s, cl, m', h', n);
  }

  lemma CopyOrder(m: Mem, h: Node, s: seq<Node>, cl: Clones, m': Mem, h': Node)
    requires IsCopy(m, h, s, cl, m', h')
    ensures forall i :: 0 <= i < |s| ==> s[i] in cl
    ensures Ordered(m', h', CloneOrder(cl, s))
  {
    forall i | 0 <= i < |s|
      ensures s[i] in cl && cl[s[i]] in m' && cl[s[i]] != h' && m'[cl[s[i]]].pos == i
    {
      assert s[i] in m && m[s[i]].pos == i;
    }
  }

  lemma CopySound(m: Mem, h: Node, s: seq<Node>, cl: Clones, m': Mem, h': Node)
    requires IsCopy(m, h, s, cl, m', h') && RedBlack(m, h)
    ensures forall i :: 0 <= i < |s| ==> s[i] in cl
    ensures Shaped(m', h', CloneOrder(cl, s)) && RedBlack(m', h')
  {
    CopyOrder(m, h, s, cl, m', h');
    var t := CloneOrder(cl, s);
    forall n | n in m' && n != h'
      ensures At(m', h', t, n) && Tint(m', h', n, null, null, null, Left)
    {
      var a :| a in cl && cl[a] == n;
      CopyAt(m, h, s, cl, m', h', a);
    }
  }

  /** m' has the shape and the colours of m, position by position. */
  ghost predicate SameForm(m: Mem, h: Node, s: seq<Node>, m': Mem, h': Node, s': seq<Node>) {
    && |s'| == |s| && (forall i :: 0 <= i < |s| ==> s[i] in m && s'[i] in m')
    && forall i :: 0 <= i < |s| ==> SameCell(m, h, s, m', h', s', i)
  }

  // The links of the i-th node lead to the same positions in both trees.
  ghost predicate SameCell(m: Mem, h: Node, s: seq<Node>, m': Mem, h': Node, s': seq<Node>, i: int)
    requires |s'| == |s| && 0 <= i < |s| && s[i] in m && s'[i] in m'
  {
    var a, b := m[s[i]], m'[s'[i]];
    && a.color == b.color
    && SameLink(m, h, s, m', h', s', a.parent, b.parent)
    && SameLink(m, h, s, m', h', s', a.left, b.left)
    && SameLink(m, h, s, m', h', s', a.right, b.right)
  }

  ghost predicate SameLink(m: Mem, h: Node, s: seq<Node>, m': Mem, h': Node, s': seq<Node>, a: Node?, b: Node?)
    requires |s'| == |s|
  {
    if a == null then b == null
    else if a == h then b == h'
    else a in m && 0 <= m[a].pos < |s| && b == s'[m[a].pos]
  }

  lemma RootIn(m: Mem, h: Node, s: seq<Node>)
    requires Sound(m, h, s)
    ensures Shaped(m, h, s) && h in m && (m[h].parent == null <==> s == [])
    ensures var r := m[h].parent; r != null ==> r in m && r != h && m[r].lo == 0 && m[r].hi == |s|
  {
    if m[h].parent != null {
      NearOf(m, h, s, m[h].parent);
    }
  }

  lemma FinishCopy(m: Mem, h: Node, s: seq<Node>, m0: Mem, m1: Mem, cl: Clones, h': Node, r: Node)
    requires Sound(m, h, s) && m[h].parent == r && m0.Keys == {h'}
    requires CopyOf(m, h, m0, m1, cl, r, h', 0, |s|)
    ensures h' in m1 && r in cl && m1[h'] == m0[h'] && m1.Keys == {h'} + cl.Values
    ensures forall i :: 0 <= i < |s| ==> s[i] in cl
    ensures var m' := m1[h' := m1[h'].(parent := cl[r])];
      Shaped(m', h', CloneOrder(cl, s)) && RedBlack(m', h')
    ensures SameForm(m, h, s, m1[h' := m1[h'].(parent := cl[r])], h', CloneOrder(cl, s))
  {
    RootIn(m, h, s);
    var m' := m1[h' := m1[h'].(parent := cl[r])];
    forall n | n in cl
      ensures cl[n] != h' && cl[n] in m' && m'[cl[n]] == m1[cl[n]]
    {
      assert cl[n] !in m0;
    }
    assert IsCopy(m, h, s, cl, m', h');
    CopySound(m, h, s, cl, m', h');
    SameFormOf(m, h, s, cl, m1, m', h', r);
  }

  lemma SameFormOf(m: Mem, h: Node, s: seq<Node>, cl: Clones, m1: Mem, m2: Mem, h': Node, r: Node)
    requires Shaped(m, h, s) && m[h].parent == r
    requires Covers(m, h, cl, 0, |s|) && Cloned(m, cl, m1, r, h')
    requires forall i :: 0 <= i < |s| ==> s[i] in cl
    requires forall n {:trigger cl[n]} :: n in cl ==> cl[n] != h'
    requires m2.Keys == m1.Keys && forall n :: n in m1 && n != h' ==> m2[n] == m1[n]
    ensures SameForm(m, h, s, m2, h', CloneOrder(cl, s))
  {
    var t := CloneOrder(cl, s);
    forall i | 0 <= i < |s|
      ensures s[i] in m && t[i] in m2
      ensures SameCell(m, h, s, m2, h', t, i)
    {
      var n := s[i];
      assert cl[n] == t[i];
      NearOf(m, h, s, n);
      assert m2[t[i]] == CloneCell(m, cl, r, h', n);
      LinkOf(m, h, s, cl, m2, h', m[n].left);
      LinkOf(m, h, s, cl, m2, h', m[n].right);
      if n != r {
        LinkOf(m, h, s, cl, m2, h', m[n].parent);
      }
    }
  }

  lemma LinkOf(m: Mem, h: Node, s: seq<Node>, cl: Clones, m2: Mem, h': Node, k: Node?)
    requires Shaped(m, h, s) && Covers(m, h, cl, 0, |s|) && (k != null ==> k in m && k != h)
    requires forall i :: 0 <= i < |s| ==> s[i] in cl
    ensures SameLink(m, h, s, m2, h', CloneOrder(cl, s), k, Twin(cl, k))
  {
    if k != null {
      NearOf(m, h, s, k);
    }
  }

  // SameForm does not look at the header's own links.
  lemma SameFormKept(m: Mem, h: Node, s: seq<Node>, m1: Mem, m2: Mem, h': Node, t: seq<Node>)
    requires SameForm(m, h, s, m1, h', t) && Ordered(m1, h', t)
    requires m2.Keys == m1.Keys && forall n {:trigger m2[n]} :: n in m1 && n != h' ==> m2[n] == m1[n]
    ensures SameForm(m, h, s, m2, h', t)
  {
    forall i | 0 <= i < |s|
      ensures s[i] in m && t[i] in m2 && SameCell(m, h, s, m2, h', t, i)
    {
      assert SameCell(m, h, s, m1, h', t, i) && m2[t[i]] == m1[t[i]];
    }
  }

  lemma RootSpan(m: Mem, h: Node, s: seq<Node>)
    requires Shaped(m, h, s) && s != []
    ensures var r := m[h].parent; r != null && r in m && r != h && m[r].lo == 0 && m[r].hi == |s|
  {
    NearOf(m, h, s, m[h].parent);
  }

  lemma FirstAndLast(m: Mem, h: Node, s: seq<Node>, top: Node, first: Node, last: Node)
    requires Shaped(m, h, s) && m[h].parent == top && first in m && last in m && first != h && last != h
    requires top in m && m[first].pos == m[top].lo && m[last].pos == m[top].hi - 1
    ensures s != [] && first == s[0] && last == s[|s| - 1]
  {
    NearOf(m, h, s, top);
    NearOf(m, h, s, first);
    NearOf(m, h, s, last);
  }
}
