/** Copying a tag tree by inserting its entries again, in the order of its map. */
module TagCopy {
  import opened SortedMap
  import opened TagOrder
  import opened TagSpec

  /** The stored tags in ascending order. */
  ghost predicate Lists<V>(keys: seq<Tag>, vals: map<Tag, V>) {
    && (forall i, j :: 0 <= i < j < |keys| ==> TagLess(keys[i], keys[j]))
    && (forall i :: 0 <= i < |keys| ==> keys[i] in vals)
    && (forall t :: t in vals ==> t in keys)
  }

  ghost predicate DepthsFit<V>(maxDepth: nat, vals: map<Tag, V>) {
    maxDepth > 0 ==> forall t :: t in vals ==> Depth(t) <= maxDepth
  }

  /** The tree after the first n entries have been inserted into an empty one. */
  function Fill<V>(maxDepth: nat, none: V, keys: seq<Tag>, vals: map<Tag, V>, n: nat): State<V>
    requires n <= |keys| && forall i :: 0 <= i < |keys| ==> keys[i] in vals
  {
    if n == 0 then State(map[], {})
    else Grow(Fill(maxDepth, none, keys, vals, n - 1), Truncate(maxDepth, keys[n - 1]), vals[keys[n - 1]], none)
  }

  lemma AncestorEarlier<V>(s: State<V>, keys: seq<Tag>, n: nat)
    requires Closed(s) && Lists(keys, s.vals) && n < |keys| && keys[n] != []
    ensures Ancestor(keys[n]) in keys[..n]
  {
    hide TagLess;
    var k := keys[n];
    assert UpStored(s, k);
    var j :| 0 <= j < |keys| && keys[j] == Ancestor(k);
    PrefixFirst(Ancestor(k), k);
    NeverBoth(Ancestor(k), k);
    assert j < n;
    assert keys[..n][j] == Ancestor(k);
  }

  lemma NeverBoth(x: Tag, y: Tag)
    ensures TagLess(x, y) ==> !TagLess(y, x) && x != y
  {
    TagOrderTotal();
    assert Lawful(TagLess, x, y, x);
  }

  lemma KeyOnce<V>(keys: seq<Tag>, vals: map<Tag, V>, n: nat)
    requires Lists(keys, vals) && n < |keys|
    ensures keys[n] !in keys[..n]
  {
    hide TagLess;
    if keys[n] in keys[..n] {
      var j :| 0 <= j < n && keys[..n][j] == keys[n];
      NeverBoth(keys[j], keys[n]);
    }
  }

  // A tag whose ancestor is stored is added alone.
  lemma FillOne<V>(r: State<V>, k: Tag, x: V, none: V)
    requires Closed(r) && Tight(r) && k !in r.vals && (k != [] ==> Ancestor(k) in r.vals)
    ensures Closed(Grow(r, k, x, none)) && Tight(Grow(r, k, x, none)) && Grow(r, k, x, none).vals == r.vals[k := x]
  {
    hide Closed, Tight, Grow;
    GrowIs(r, k, x, none);
    if k != [] {
      ChainStored(r, Ancestor(k));
    }
    assert Grow(r, k, x, none).vals.Keys == r.vals[k := x].Keys;
  }

  lemma {:induction false} FillPrefix<V>(maxDepth: nat, none: V, s: State<V>, keys: seq<Tag>, n: nat)
    requires Closed(s) && Lists(keys, s.vals) && DepthsFit(maxDepth, s.vals) && n <= |keys|
    ensures var r := Fill(maxDepth, none, keys, s.vals, n);
      && Closed(r) && Tight(r)
      && (forall t :: t in r.vals <==> t in keys[..n])
      && (forall t :: t in r.vals ==> r.vals[t] == s.vals[t])
  {
    hide TagLess, Parents, Grow, Closed, Tight;
    if n == 0 {
      NothingClosed<V>();
    } else {
      FillPrefix(maxDepth, none, s, keys, n - 1);
      var r, k := Fill(maxDepth, none, keys, s.vals, n - 1), keys[n - 1];
      assert keys[..n] == keys[..n - 1] + [k];
      assert Truncate(maxDepth, k) == k;
      KeyOnce(keys, s.vals, n - 1);
      if k != [] {
        AncestorEarlier(s, keys, n - 1);
      }
      FillOne(r, k, s.vals[k], none);
    }
  }

  lemma NothingClosed<V>()
    ensures var s: State<V> := State(map[], {}); Closed(s) && Tight(s)
  {
  }

  /** A copy holds exactly the tags and values of the tree it was made from, and lists exactly its stored children. */
  lemma CopyExact<V>(maxDepth: nat, none: V, s: State<V>, keys: seq<Tag>)
    requires Closed(s) && Lists(keys, s.vals) && DepthsFit(maxDepth, s.vals)
    ensures Fill(maxDepth, none, keys, s.vals, |keys|) == State(s.vals, Parents(s.vals.Keys))
  {
    FillPrefix(maxDepth, none, s, keys, |keys|);
    var r := Fill(maxDepth, none, keys, s.vals, |keys|);
    assert keys[..|keys|] == keys;
    assert r.vals.Keys == s.vals.Keys;
    assert r.vals == s.vals;
  }

  /** The order matters: inserted after a descendant, a tag is there already and keeps the default value. */
  lemma DescendantFirst<V>(s: State<V>, a: Tag, b: Tag, x: V, y: V, none: V)
    requires Closed(s) && a !in s.vals && a in Chain(b) && a != b
    ensures a in Grow(s, b, y, none).vals && Grow(Grow(s, b, y, none), a, x, none).vals[a] == none
  {
    hide Closed, Tight;
    GrowIs(s, b, y, none);
    GrowIs(Grow(s, b, y, none), a, x, none);
  }
}
