/** Walking down the tree by key: what each step of a search keeps, on snapshots. */
module RbSearch {
  import opened RbLinks
  import SortedMap

  type Less = (Key, Key) -> bool

  ghost predicate Rising(less: Less, s: seq<Node>) {
    forall i, j :: 0 <= i < j < |s| ==> less(s[i].key, s[j].key)
  }

  /** Whether a node belongs before the position sought: the first key not less than k, or,
      when `past` is set, the first key greater than k. */
  ghost predicate Before(less: Less, past: bool, n: Node, k: Key) {
    if past then !less(k, n.key) else less(n.key, k)
  }

  ghost predicate Bound(less: Less, past: bool, s: seq<Node>, k: Key, lo: int, hi: int) {
    && 0 <= lo <= hi <= |s|
    && (forall j :: 0 <= j < lo ==> Before(less, past, s[j], k))
    && (forall j :: hi <= j < |s| ==> !Before(less, past, s[j], k))
  }

  // x roots the part of the tree that occupies lo..hi.
  ghost predicate Spans(m: Mem, h: Node, x: Node?, lo: int, hi: int) {
    if x == null then lo == hi else x in m && x != h && m[x].lo == lo && m[x].hi == hi
  }

  /** One comparison at x halves the range: everything up to x, or everything from x on, is settled. */
  lemma BoundStep(less: Less, past: bool, m: Mem, h: Node, s: seq<Node>, k: Key, x: Node, lo: int, hi: int)
    requires SortedMap.StrictWeak(less) && Rising(less, s) && Shaped(m, h, s)
    requires Bound(less, past, s, k, lo, hi) && Spans(m, h, x, lo, hi)
    ensures 0 <= lo <= m[x].pos < hi <= |s| && s[m[x].pos] == x
    ensures Before(less, past, x, k) ==>
      Bound(less, past, s, k, m[x].pos + 1, hi) && Spans(m, h, m[x].right, m[x].pos + 1, hi)
    ensures !Before(less, past, x, k) ==>
      Bound(less, past, s, k, lo, m[x].pos) && Spans(m, h, m[x].left, lo, m[x].pos)
  {
    NearOf(m, h, s, x);
    var p := m[x].pos;
    if Before(less, past, x, k) {
      forall j | 0 <= j < p + 1
        ensures Before(less, past, s[j], k)
      {
        assert SortedMap.Lawful(less, s[j].key, x.key, k) && SortedMap.Lawful(less, k, s[j].key, x.key);
        assert SortedMap.Lawful(less, s[j].key, x.key, s[j].key);
      }
    } else {
      forall j | p <= j < |s|
        ensures !Before(less, past, s[j], k)
      {
        assert SortedMap.Lawful(less, x.key, s[j].key, k) && SortedMap.Lawful(less, k, x.key, s[j].key);
      }
    }
  }

  // The empty place on side d of y, or under the header of an empty tree, is at position i.
  ghost predicate Place(m: Mem, h: Node, s: seq<Node>, x: Node?, y: Node, d: Dir, lo: int, hi: int) {
    && h in m && y in m && Spans(m, h, x, lo, hi)
    && if y == h then m[h].parent == x && d == Left && lo == 0 && hi == |s|
       else m[y].Kid(d) == x && lo == m[y].KidLo(d) && hi == m[y].KidHi(d)
  }

  lemma SpanStep(m: Mem, h: Node, s: seq<Node>, x: Node, lo: int, hi: int) returns (p: int)
    requires Shaped(m, h, s) && Spans(m, h, x, lo, hi)
    ensures Ordered(m, h, s) && x in m && p == m[x].pos && 0 <= lo <= p < hi <= |s| && s[p] == x
    ensures Spans(m, h, m[x].left, lo, p) && Spans(m, h, m[x].right, p + 1, hi)
  {
    NearOf(m, h, s, x);
    p := m[x].pos;
  }

  lemma RootSpans(m: Mem, h: Node, s: seq<Node>)
    requires Shaped(m, h, s)
    ensures Spans(m, h, m[h].parent, 0, |s|)
  {
    if m[h].parent != null {
      NearOf(m, h, s, m[h].parent);
    }
  }

  /** The entry just before the upper bound decides whether k is new. */
  lemma NewKeyFits(less: Less, s: seq<Node>, k: Key, i: int)
    requires SortedMap.StrictWeak(less) && Rising(less, s) && Bound(less, true, s, k, i, i)
    requires i == 0 || less(s[i - 1].key, k)
    ensures Fits(less, s, k, i)
  {
    forall j | 0 <= j < i
      ensures less(s[j].key, k)
    {
      assert SortedMap.Lawful(less, s[j].key, s[i - 1].key, k);
    }
  }

  /** A node with key k can stand at position i and leave the order strictly rising. */
  ghost predicate Fits(less: Less, s: seq<Node>, k: Key, i: int) {
    && 0 <= i <= |s|
    && (forall j :: 0 <= j < i ==> less(s[j].key, k))
    && (forall j :: i <= j < |s| ==> less(k, s[j].key))
  }

  lemma FitsBetween(less: Less, s: seq<Node>, k: Key, i: int)
    requires SortedMap.StrictWeak(less) && Rising(less, s) && 0 <= i <= |s|
    requires i > 0 ==> less(s[i - 1].key, k)
    requires i < |s| ==> less(k, s[i].key)
    ensures Fits(less, s, k, i)
  {
    forall j | 0 <= j < i
      ensures less(s[j].key, k)
    {
      assert SortedMap.Lawful(less, s[j].key, s[i - 1].key, k);
    }
    forall j | i <= j < |s|
      ensures less(k, s[j].key)
    {
      assert SortedMap.Lawful(less, k, s[i].key, s[j].key);
    }
  }

  /** Of two neighbours in order, the left one has no right child or the right one no left child. */
  lemma NeighbourGap(m: Mem, h: Node, s: seq<Node>, a: Node, b: Node)
    requires Shaped(m, h, s) && a in m && b in m && a != h && b != h && m[b].pos == m[a].pos + 1
    ensures m[a].right == null || m[b].left == null
  {
    NearOf(m, h, s, a);
    NearOf(m, h, s, b);
    if m[a].right != null {
      FirstUnder(m, h, s, m[a].right, b);
    }
  }

  // The node at the first position under x has no left child.
  lemma {:induction false} FirstUnder(m: Mem, h: Node, s: seq<Node>, x: Node, b: Node)
    requires Shaped(m, h, s) && x in m && x != h && b in m && b != h && m[x].lo == m[b].pos
    ensures m[b].left == null
    decreases m[x].hi - m[x].lo
  {
    NearOf(m, h, s, x);
    NearOf(m, h, s, b);
    if m[x].left != null {
      FirstUnder(m, h, s, m[x].left, b);
    } else {
      assert s[m[x].pos] == x && s[m[b].pos] == b;
    }
  }
}
