/** What a sorted map is: its entries in strictly ascending key order, where keys are ordered by a
    strict weak order, as the Compare parameter of Oscl_Map is.  Everything here is about values;
    RbTree proves that the pointer tree computes it. */
module SortedMap {
  import opened SeqEdits

  // The laws of a strict weak order, for three keys.
  ghost predicate Lawful<K>(less: (K, K) -> bool, a: K, b: K, c: K) {
    && !less(a, a)
    && (less(a, b) && less(b, c) ==> less(a, c))
    && (!less(a, b) && !less(b, c) ==> !less(a, c))
  }

  ghost predicate StrictWeak<K(!new)>(less: (K, K) -> bool) {
    forall a, b, c {:trigger Lawful(less, a, b, c)} :: Lawful(less, a, b, c)
  }

  ghost predicate Ascending<K, V>(less: (K, K) -> bool, e: seq<(K, V)>) {
    forall i, j :: 0 <= i < j < |e| ==> less(e[i].0, e[j].0)
  }

  /** i is the first position whose key is not less than k. */
  ghost predicate IsLower<K, V>(less: (K, K) -> bool, e: seq<(K, V)>, k: K, i: int) {
    && 0 <= i <= |e|
    && (forall j :: 0 <= j < i ==> less(e[j].0, k))
    && (forall j :: i <= j < |e| ==> !less(e[j].0, k))
  }

  /** i is the first position whose key is greater than k. */
  ghost predicate IsUpper<K, V>(less: (K, K) -> bool, e: seq<(K, V)>, k: K, i: int) {
    && 0 <= i <= |e|
    && (forall j :: 0 <= j < i ==> !less(k, e[j].0))
    && (forall j :: i <= j < |e| ==> less(k, e[j].0))
  }

  function LowerIndex<K, V>(less: (K, K) -> bool, e: seq<(K, V)>, k: K): (i: nat)
    ensures i <= |e|
  {
    if e == [] || !less(e[0].0, k) then 0 else 1 + LowerIndex(less, e[1..], k)
  }

  predicate Has<K, V>(less: (K, K) -> bool, e: seq<(K, V)>, k: K) {
    var i := LowerIndex(less, e, k);
    i < |e| && !less(k, e[i].0)
  }

  /** insert_unique: an equivalent key keeps its old entry. */
  function Insert<K, V>(less: (K, K) -> bool, e: seq<(K, V)>, k: K, v: V): seq<(K, V)> {
    if Has(less, e, k) then e else InsertAt(e, LowerIndex(less, e, k), (k, v))
  }

  function Erase<K, V>(less: (K, K) -> bool, e: seq<(K, V)>, k: K): seq<(K, V)> {
    if Has(less, e, k) then RemoveAt(e, LowerIndex(less, e, k)) else e
  }

  function InsertAll<K, V>(less: (K, K) -> bool, e: seq<(K, V)>, v: seq<(K, V)>): seq<(K, V)>
    decreases |v|
  {
    if v == [] then e else InsertAll(less, Insert(less, e, v[0].0, v[0].1), v[1..])
  }

  lemma {:induction false} LowerIndexIsLower<K(!new), V>(less: (K, K) -> bool, e: seq<(K, V)>, k: K)
    requires StrictWeak(less) && Ascending(less, e)
    ensures IsLower(less, e, k, LowerIndex(less, e, k))
  {
    if e != [] {
      if less(e[0].0, k) {
        LowerIndexIsLower(less, e[1..], k);
        var i := LowerIndex(less, e[1..], k);
        assert forall j :: 0 < j < |e| ==> e[j] == e[1..][j - 1];
      } else {
        forall j | 0 <= j < |e|
          ensures !less(e[j].0, k)
        {
          assert Lawful(less, e[0].0, e[j].0, k);
        }
      }
    }
  }

  lemma LowerUnique<K(!new), V>(less: (K, K) -> bool, e: seq<(K, V)>, k: K, i: int)
    requires StrictWeak(less) && Ascending(less, e) && IsLower(less, e, k, i)
    ensures i == LowerIndex(less, e, k)
  {
    LowerIndexIsLower(less, e, k);
    var l := LowerIndex(less, e, k);
    assert i < |e| ==> !less(e[i].0, k);
    assert l < |e| ==> !less(e[l].0, k);
  }

  /** Between lower and upper bound lies at most the one entry with an equivalent key. */
  lemma BoundsMeet<K(!new), V>(less: (K, K) -> bool, e: seq<(K, V)>, k: K, l: int, u: int)
    requires StrictWeak(less) && Ascending(less, e) && IsLower(less, e, k, l) && IsUpper(less, e, k, u)
    ensures l == LowerIndex(less, e, k) && u == l + (if Has(less, e, k) then 1 else 0)
  {
    LowerUnique(less, e, k, l);
    assert u < |e| ==> less(k, e[u].0) && Lawful(less, k, e[u].0, k);
    assert l <= u;
    assert l < |e| ==> !less(e[l].0, k);
    assert l + 1 < |e| ==> less(e[l].0, e[l + 1].0) && Lawful(less, e[l].0, k, e[l + 1].0);
  }
}
