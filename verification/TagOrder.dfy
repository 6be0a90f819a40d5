/** Dotted tags: the bounded comparison that orders them, and the ancestor of a tag. */
module TagOrder {
  import opened SortedMap
  import MapRuns

  // A character of a C string other than the terminating zero, as the unsigned value compared.
  type Unit = c: int | 1 <= c < 256 witness 1
  type Tag = seq<Unit>

  const DOT: Unit := 46

  // The i-th character in memory; the one after the last is zero.
  function CharAt(x: Tag, i: nat): int {
    if i < |x| then x[i] else 0
  }

  /** strncmp from position i on, with bound n. */
  function StrNCmp(x: Tag, y: Tag, i: nat, n: nat): int
    requires i <= n && i <= |x| && i <= |y|
    decreases n - i
  {
    if i == n then 0
    else if CharAt(x, i) != CharAt(y, i) then CharAt(x, i) - CharAt(y, i)
    else if CharAt(x, i) == 0 then 0
    else StrNCmp(x, y, i + 1, n)
  }

  function TagCmp(x: Tag, y: Tag): int {
    StrNCmp(x, y, 0, |x| + 1)
  }

  predicate TagLess(x: Tag, y: Tag) {
    TagCmp(x, y) < 0
  }

  // ---------------------------------------------------------------- the order it is

  /** x and y agree up to d, where x ends or has the smaller character. */
  ghost predicate Parts(x: Tag, y: Tag, d: int) {
    && 0 <= d <= |x|
    && d < |y|
    && (forall k :: 0 <= k < d ==> x[k] == y[k])
    && (d < |x| ==> x[d] < y[d])
  }

  /** The order of whole strings. */
  ghost predicate Before(x: Tag, y: Tag) {
    exists d :: Parts(x, y, d)
  }

  lemma PartsOnce(x: Tag, y: Tag, d: int, e: int)
    requires Parts(x, y, d)
    ensures !Parts(y, x, e)
  {
  }

  lemma {:induction false} CmpFrom(x: Tag, y: Tag, i: nat, n: nat)
    requires i <= |x| && i <= |y| && i <= n && (|x| < n || |y| < n)
    requires forall k :: 0 <= k < i ==> x[k] == y[k]
    ensures var c := StrNCmp(x, y, i, n);
      (c < 0 ==> Before(x, y)) && (c > 0 ==> Before(y, x)) && (c == 0 ==> x == y)
    decreases n - i
  {
    if i < |x| && i < |y| && x[i] == y[i] {
      CmpFrom(x, y, i + 1, n);
    } else if CharAt(x, i) < CharAt(y, i) {
      assert Parts(x, y, i);
    } else if CharAt(y, i) < CharAt(x, i) {
      assert Parts(y, x, i);
    }
  }

  /** With any bound that reaches the end of one string, the bounded comparison is that of whole strings. */
  lemma CmpIsOrder(x: Tag, y: Tag, n: nat)
    requires |x| < n || |y| < n
    ensures StrNCmp(x, y, 0, n) < 0 <==> Before(x, y)
    ensures StrNCmp(x, y, 0, n) > 0 <==> Before(y, x)
    ensures StrNCmp(x, y, 0, n) == 0 <==> x == y
  {
    CmpFrom(x, y, 0, n);
    if d :| Parts(x, y, d) {
      forall e
        ensures !Parts(y, x, e)
      {
        PartsOnce(x, y, d, e);
      }
      assert x != y;
    } else if d :| Parts(y, x, d) {
      assert x != y;
    }
  }

  /** tag_cmp(x, y) < 0 exactly when x comes first in the order of whole strings. */
  lemma LessIs(x: Tag, y: Tag)
    ensures TagLess(x, y) <==> Before(x, y)
  {
    CmpIsOrder(x, y, |x| + 1);
  }

  lemma BeforeTransitive(x: Tag, y: Tag, z: Tag)
    requires Before(x, y) && Before(y, z)
    ensures Before(x, z)
  {
    var d :| Parts(x, y, d);
    var e :| Parts(y, z, e);
    var f := if d < e then d else e;
    assert Parts(x, z, f);
  }

  /** tag_cmp(x, y) < 0 is a strict total order. */
  lemma TagOrderTotal()
    ensures StrictWeak(TagLess) && MapRuns.Total(TagLess)
  {
    forall a: Tag, b: Tag, c: Tag
      ensures Lawful(TagLess, a, b, c)
    {
      LawfulTags(a, b, c);
    }
    forall a: Tag, b: Tag
      ensures TagLess(a, b) || TagLess(b, a) || a == b
    {
      CmpIsOrder(a, b, |a| + 1);
      CmpIsOrder(b, a, |b| + 1);
    }
  }

  lemma LawfulTags(a: Tag, b: Tag, c: Tag)
    ensures Lawful(TagLess, a, b, c)
  {
    hide StrNCmp, Before;
    CmpIsOrder(a, a, |a| + 1);
    CmpIsOrder(a, b, |a| + 1);
    CmpIsOrder(b, c, |b| + 1);
    CmpIsOrder(a, c, |a| + 1);
    if Before(a, b) && Before(b, c) {
      BeforeTransitive(a, b, c);
    }
    if Before(b, a) && Before(c, b) {
      BeforeTransitive(c, b, a);
    }
  }

  /** A proper prefix comes first. */
  lemma PrefixFirst(x: Tag, y: Tag)
    requires x < y
    ensures TagLess(x, y)
  {
    CmpIsOrder(x, y, |x| + 1);
    assert Parts(x, y, |x|);
  }

  // ---------------------------------------------------------------- ancestors

  /** tag_ancestor: the tag without its last component. */
  function Ancestor(t: Tag): (r: Tag)
    ensures r <= t && (t != [] ==> r < t)
  {
    if t == [] then []
    else if t[|t| - 1] == DOT then t[..|t| - 1]
    else Ancestor(t[..|t| - 1])
  }

  /** tag_depth: how many components there are to drop. */
  function Depth(t: Tag): nat
    decreases |t|
  {
    if t == [] then 0 else 1 + Depth(Ancestor(t))
  }

  function Dots(t: Tag): nat {
    if t == [] then 0 else Dots(t[..|t| - 1]) + (if t[|t| - 1] == DOT then 1 else 0)
  }

  lemma LastApart<T>(t: seq<T>, k: nat)
    requires k + 1 < |t|
    ensures var s := t[..|t| - 1];
      t[..k] == s[..k] && t[k] == s[k] && t[k + 1..] == s[k + 1..] + [t[|t| - 1]]
  {
  }

  /** What is dropped is the last dot and the component after it, or everything when there is no dot. */
  lemma {:induction false} AncestorDropsComponent(t: Tag)
    requires t != []
    ensures var a := Ancestor(t);
      (a == [] && DOT !in t) || (|a| < |t| && t[..|a|] == a && t[|a|] == DOT && DOT !in t[|a| + 1..])
  {
    var s := t[..|t| - 1];
    if t[|t| - 1] != DOT {
      if s == [] {
        assert Ancestor(s) == [];
      } else {
        AncestorDropsComponent(s);
        var a := Ancestor(s);
        assert Ancestor(t) == a;
        hide Ancestor;
        LastApart(t, |a|);
      }
    } else {
      assert t[|s| + 1..] == [];
    }
  }

  lemma {:induction false} DotsDrop(t: Tag)
    requires t != []
    ensures Dots(t) == Dots(Ancestor(t)) + (if DOT in t then 1 else 0)
  {
    var s := t[..|t| - 1];
    assert t == s + [t[|t| - 1]];
    if t[|t| - 1] != DOT {
      if s == [] {
        assert Ancestor(s) == [];
      } else {
        DotsDrop(s);
      }
    }
  }

  /** a.b.c.d has depth 4: the dots and one more, except that an empty first component is not counted. */
  lemma {:induction false} DepthCountsDots(t: Tag)
    requires t != []
    ensures Depth(t) == Dots(t) + (if t[0] == DOT then 0 else 1)
    decreases |t|
  {
    var a := Ancestor(t);
    DotsDrop(t);
    AncestorDropsComponent(t);
    if a != [] {
      DepthCountsDots(a);
    }
  }

  function Climb(t: Tag, n: nat): Tag
    decreases n
  {
    if n == 0 then t else Climb(Ancestor(t), n - 1)
  }

  lemma {:induction false} ClimbDepth(t: Tag, n: nat)
    requires n <= Depth(t)
    ensures Depth(Climb(t, n)) == Depth(t) - n
    decreases n
  {
    if n > 0 {
      ClimbDepth(Ancestor(t), n - 1);
    }
  }

  /** The tag that is really inserted: cut to maxDepth components unless maxDepth is 0. */
  function Truncate(maxDepth: nat, t: Tag): Tag {
    if 0 < maxDepth < Depth(t) then Climb(t, Depth(t) - maxDepth) else t
  }

  lemma TruncateDepth(maxDepth: nat, t: Tag)
    ensures Depth(Truncate(maxDepth, t)) == if 0 < maxDepth < Depth(t) then maxDepth else Depth(t)
  {
    if 0 < maxDepth < Depth(t) {
      ClimbDepth(t, Depth(t) - maxDepth);
    }
  }

  /** u is t without some of its last components: t itself, or what stands before one of its dots, or nothing. */
  ghost predicate Above(u: Tag, t: Tag) {
    u == t || u == [] || (|u| < |t| && t[..|u|] == u && t[|u|] == DOT)
  }

  lemma AboveAncestor(u: Tag, t: Tag)
    requires t != [] && u != t
    ensures Above(u, t) <==> Above(u, Ancestor(t))
  {
    var a := Ancestor(t);
    AncestorDropsComponent(t);
    if DOT in t {
      assert forall i :: |a| < i < |t| ==> t[i] == t[|a| + 1..][i - |a| - 1];
    }
    hide Ancestor;
    if |u| < |a| {
      assert t[..|u|] == a[..|u|];
    }
  }

  lemma {:induction false} ClimbAbove(t: Tag, n: nat)
    ensures Above(Climb(t, n), t)
    decreases n
  {
    if n > 0 && t != [] {
      ClimbAbove(Ancestor(t), n - 1);
      if Climb(t, n) != t {
        AboveAncestor(Climb(t, n), t);
      }
    } else if n > 0 {
      ClimbAbove(t, n - 1);
    }
  }

  /** It is the tag given without its last components, as many as are too many. */
  lemma TruncateAbove(maxDepth: nat, t: Tag)
    ensures Above(Truncate(maxDepth, t), t)
  {
    if 0 < maxDepth < Depth(t) {
      ClimbAbove(t, Depth(t) - maxDepth);
    }
  }
}
