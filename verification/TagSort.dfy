/** The passes of Node::sort_children over a vector, under any strict weak order. */
module TagSort {
  import opened SortedMap

  /** One comparison of neighbours, swapping them if they are in the wrong order. */
  function Bubble<K>(less: (K, K) -> bool, c: seq<K>, it: nat): seq<K>
    requires it + 1 < |c|
  {
    if less(c[it + 1], c[it]) then c[it := c[it + 1]][it + 1 := c[it]] else c
  }

  // Position j holds nothing less than what comes before it.
  ghost predicate AtLeast<K>(less: (K, K) -> bool, c: seq<K>, j: int)
    requires 0 <= j < |c|
  {
    forall i :: 0 <= i < j ==> !less(c[j], c[i])
  }

  /** From bound on, everything is in its final place. */
  ghost predicate Settled<K>(less: (K, K) -> bool, c: seq<K>, bound: int) {
    forall j :: 0 <= bound <= j < |c| ==> AtLeast(less, c, j)
  }

  ghost predicate Sorted<K>(less: (K, K) -> bool, c: seq<K>) {
    Settled(less, c, 0)
  }

  /** What a pass has achieved when it has reached position it. */
  ghost predicate Passing<K>(less: (K, K) -> bool, c: seq<K>, it: nat, bound: nat)
    requires it < |c|
  {
    && bound <= |c|
    && Settled(less, c, bound)
    && (it < bound ==> AtLeast(less, c, it))
    && (it >= bound - 1 >= 0 ==> Settled(less, c, bound - 1))
  }

  lemma SwapPasses<K(!new)>(less: (K, K) -> bool, c: seq<K>, it: nat, bound: nat)
    requires StrictWeak(less) && it + 1 < |c| && Passing(less, c, it, bound) && less(c[it + 1], c[it])
    ensures Passing(less, Bubble(less, c, it), it + 1, bound) && it + 1 < bound
  {
    assert it + 1 < bound by {
      assert it + 1 >= bound ==> AtLeast(less, c, it + 1);
    }
    var r := Bubble(less, c, it);
    assert AtLeast(less, r, it + 1) by {
      assert Lawful(less, c[it], c[it + 1], c[it]);
      assert forall i :: 0 <= i < it ==> r[i] == c[i];
    }
    forall j | bound <= j < |r|
      ensures AtLeast(less, r, j)
    {
      assert AtLeast(less, c, j) && r[j] == c[j];
      assert !less(c[j], c[it]) && !less(c[j], c[it + 1]);
    }
  }

  lemma KeepPasses<K(!new)>(less: (K, K) -> bool, c: seq<K>, it: nat, bound: nat)
    requires StrictWeak(less) && it + 1 < |c| && Passing(less, c, it, bound) && !less(c[it + 1], c[it])
    ensures Passing(less, c, it + 1, bound)
  {
    if it + 1 < bound {
      forall i | 0 <= i < it
        ensures !less(c[it + 1], c[i])
      {
        assert Lawful(less, c[it + 1], c[it], c[i]);
      }
      assert AtLeast(less, c, it + 1);
    }
  }

  lemma {:induction false} NeighboursSorted<K(!new)>(less: (K, K) -> bool, c: seq<K>, j: nat)
    requires StrictWeak(less) && j < |c|
    requires forall k :: 0 <= k < |c| - 1 ==> !less(c[k + 1], c[k])
    ensures AtLeast(less, c, j)
  {
    if j > 0 {
      NeighboursSorted(less, c, j - 1);
      assert !less(c[j - 1 + 1], c[j - 1]);
      forall i | 0 <= i < j - 1
        ensures !less(c[j], c[i])
      {
        assert Lawful(less, c[j], c[j - 1], c[i]);
      }
    }
  }

  lemma AllSorted<K(!new)>(less: (K, K) -> bool, c: seq<K>)
    requires StrictWeak(less)
    requires forall k :: 0 <= k < |c| - 1 ==> !less(c[k + 1], c[k])
    ensures Sorted(less, c)
  {
    forall j | 0 <= j < |c|
      ensures AtLeast(less, c, j)
    {
      NeighboursSorted(less, c, j);
    }
  }
}
