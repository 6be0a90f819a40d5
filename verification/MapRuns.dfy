/** Runs of Oscl_Map operations on the sorted entries, and the key-to-value map they denote. */
module MapRuns {
  import opened SeqEdits
  import opened SortedMap

  /** One call; iterators are given by their positions. */
  datatype Op<K, V> =
    | InsertPair(k: K, v: V)
    | InsertNear(hint: nat, k: K, v: V)
    | EraseAt(i: nat)
    | EraseRange(i: nat, j: nat)
    | EraseKey(k: K)
    | EraseAll
    | Subscript(k: K)
    | SubscriptAssign(k: K, v: V)

  // An iterator handed to a call must hold a position of the map; only erase(position) needs an entry there.
  predicate Legal<K, V>(e: seq<(K, V)>, op: Op<K, V>) {
    match op
    case InsertNear(hint, _, _) => hint <= |e|
    case EraseAt(i) => i < |e|
    case EraseRange(i, j) => i <= j <= |e|
    case _ => true
  }

  /** m[k] = v: an equivalent key keeps its place and takes the new value. */
  function Put<K, V>(less: (K, K) -> bool, e: seq<(K, V)>, k: K, v: V): seq<(K, V)> {
    var i := LowerIndex(less, e, k);
    if Has(less, e, k) then e[i := (e[i].0, v)] else InsertAt(e, i, (k, v))
  }

  function Step<K, V>(less: (K, K) -> bool, none: V, e: seq<(K, V)>, op: Op<K, V>): seq<(K, V)>
    requires Legal(e, op)
  {
    match op
    case InsertPair(k, v) => Insert(less, e, k, v)
    case InsertNear(_, k, v) => Insert(less, e, k, v)
    case EraseAt(i) => RemoveAt(e, i)
    case EraseRange(i, j) => e[..i] + e[j..]
    case EraseKey(k) => Erase(less, e, k)
    case EraseAll => []
    case Subscript(k) => Insert(less, e, k, none)
    case SubscriptAssign(k, v) => Put(less, e, k, v)
  }

  predicate RunLegal<K, V>(less: (K, K) -> bool, none: V, e: seq<(K, V)>, ops: seq<Op<K, V>>)
    decreases |ops|
  {
    ops == [] || (Legal(e, ops[0]) && RunLegal(less, none, Step(less, none, e, ops[0]), ops[1..]))
  }

  function Run<K, V>(less: (K, K) -> bool, none: V, e: seq<(K, V)>, ops: seq<Op<K, V>>): seq<(K, V)>
    requires RunLegal(less, none, e, ops)
    decreases |ops|
  {
    if ops == [] then e else Run(less, none, Step(less, none, e, ops[0]), ops[1..])
  }

  // ---------------------------------------------------------------- the map denoted

  /** Inequivalent keys are different keys: what a map from keys to values needs of `less`. */
  ghost predicate Total<K(!new)>(less: (K, K) -> bool) {
    forall a, b {:trigger less(a, b), less(b, a)} :: less(a, b) || less(b, a) || a == b
  }

  /** The entries e, in ascending order, are exactly those of m. */
  ghost predicate Denotes<K, V>(less: (K, K) -> bool, e: seq<(K, V)>, m: map<K, V>) {
    && Ascending(less, e)
    && |m| == |e|
    && (forall i :: 0 <= i < |e| ==> e[i].0 in m && m[e[i].0] == e[i].1)
    && (forall k :: k in m ==> KeyAt(e, k))
  }

  ghost predicate KeyAt<K, V>(e: seq<(K, V)>, k: K) {
    exists i :: 0 <= i < |e| && e[i].0 == k
  }

  ghost function KeysIn<K, V>(e: seq<(K, V)>, i: nat, j: nat): set<K>
    requires j <= |e|
    decreases j - i
  {
    if i >= j then {} else {e[i].0} + KeysIn(e, i + 1, j)
  }

  /** The keys of m that are equivalent to k: k itself, when `less` is total. */
  ghost function Like<K, V>(less: (K, K) -> bool, m: map<K, V>, k: K): set<K> {
    set q | q in m && !less(q, k) && !less(k, q)
  }

  ghost function MapInsert<K, V>(less: (K, K) -> bool, m: map<K, V>, k: K, v: V): map<K, V> {
    if Like(less, m, k) == {} then m[k := v] else m
  }

  ghost function MapPut<K, V>(less: (K, K) -> bool, m: map<K, V>, k: K, v: V): map<K, V> {
    if Like(less, m, k) == {} then m[k := v] else map q | q in m :: if q in Like(less, m, k) then v else m[q]
  }

  ghost function MapStep<K, V>(less: (K, K) -> bool, none: V, e: seq<(K, V)>, m: map<K, V>, op: Op<K, V>): map<K, V>
    requires Legal(e, op)
  {
    match op
    case InsertPair(k, v) => MapInsert(less, m, k, v)
    case InsertNear(_, k, v) => MapInsert(less, m, k, v)
    case EraseAt(i) => m - {e[i].0}
    case EraseRange(i, j) => m - KeysIn(e, i, j)
    case EraseKey(k) => m - Like(less, m, k)
    case EraseAll => map[]
    case Subscript(k) => MapInsert(less, m, k, none)
    case SubscriptAssign(k, v) => MapPut(less, m, k, v)
  }

  /** Under a total order these are the plain map operations. */
  lemma TotalIsPlain<K(!new), V>(less: (K, K) -> bool, m: map<K, V>, k: K, v: V)
    requires StrictWeak(less) && Total(less)
    ensures Like(less, m, k) == (if k in m then {k} else {}) && m - Like(less, m, k) == m - {k}
    ensures MapInsert(less, m, k, v) == (if k in m then m else m[k := v]) && MapPut(less, m, k, v) == m[k := v]
  {
    assert Lawful(less, k, k, k);
    assert Like(less, m, k) == if k in m then {k} else {};
  }

  lemma Distinct<K(!new), V>(less: (K, K) -> bool, e: seq<(K, V)>, i: int, j: int)
    requires StrictWeak(less) && Ascending(less, e) && 0 <= i < |e| && 0 <= j < |e| && e[i].0 == e[j].0
    ensures i == j
  {
    assert Lawful(less, e[i].0, e[i].0, e[i].0);
  }

  /** The one entry that LowerIndex finds is the one with an equivalent key. */
  lemma HasIsLike<K(!new), V>(less: (K, K) -> bool, e: seq<(K, V)>, m: map<K, V>, k: K)
    requires StrictWeak(less) && Denotes(less, e, m)
    ensures Like(less, m, k) == if Has(less, e, k) then {e[LowerIndex(less, e, k)].0} else {}
  {
    var l := LowerIndex(less, e, k);
    LowerIndexIsLower(less, e, k);
    forall q | q in Like(less, m, k)
      ensures Has(less, e, k) && q == e[l].0
    {
      var i :| 0 <= i < |e| && e[i].0 == q;
      forall j | i <= j < |e|
        ensures !less(e[j].0, k)
      {
        assert Lawful(less, q, e[j].0, k) && Lawful(less, e[j].0, k, q);
      }
      forall j | 0 <= j < i
        ensures less(e[j].0, k)
      {
        assert Lawful(less, e[j].0, k, q);
      }
      LowerUnique(less, e, k, i);
    }
    if Has(less, e, k) {
      assert !less(e[l].0, k) && e[l].0 in m;
    }
  }

  lemma HasIsIn<K(!new), V>(less: (K, K) -> bool, e: seq<(K, V)>, m: map<K, V>, k: K)
    requires StrictWeak(less) && Total(less) && Denotes(less, e, m)
    ensures Has(less, e, k) <==> k in m
    ensures Has(less, e, k) ==> e[LowerIndex(less, e, k)].0 == k
  {
    hide *;
    HasIsLike(less, e, m, k);
    if k in m {
      TotalIsPlain(less, m, k, m[k]);
    } else {
      NotIn(less, m, k);
    }
  }

  lemma NotIn<K(!new), V>(less: (K, K) -> bool, m: map<K, V>, k: K)
    requires Total(less) && k !in m
    ensures Like(less, m, k) == {}
  {
  }

  lemma AllAbove<K(!new), V>(less: (K, K) -> bool, e: seq<(K, V)>, k: K)
    requires StrictWeak(less) && Ascending(less, e) && !Has(less, e, k)
    ensures forall j :: LowerIndex(less, e, k) <= j < |e| ==> less(k, e[j].0)
  {
    var l := LowerIndex(less, e, k);
    forall j | l <= j < |e|
      ensures less(k, e[j].0)
    {
      assert j > l ==> less(e[l].0, e[j].0);
      assert Lawful(less, k, e[l].0, e[j].0);
    }
  }

  lemma InsertDenotes<K(!new), V>(less: (K, K) -> bool, e: seq<(K, V)>, m: map<K, V>, k: K, v: V)
    requires StrictWeak(less) && Denotes(less, e, m) && !Has(less, e, k)
    ensures Denotes(less, InsertAt(e, LowerIndex(less, e, k), (k, v)), m[k := v])
  {
    assert Lawful(less, k, k, k);
    hide StrictWeak, LowerIndex;
    var l := LowerIndex(less, e, k);
    LowerIndexIsLower(less, e, k);
    HasIsLike(less, e, m, k);
    assert k !in Like(less, m, k);
    AllAbove(less, e, k);
    InsertedOrder(less, e, l, k, v);
    InsertedKeys(e, m, l, k, v);
  }

  // The entries still are the map's.
  lemma InsertedKeys<K, V>(e: seq<(K, V)>, m: map<K, V>, l: int, k: K, v: V)
    requires 0 <= l <= |e| && k !in m && |m| == |e|
    requires forall i :: 0 <= i < |e| ==> e[i].0 in m && m[e[i].0] == e[i].1
    requires forall q :: q in m ==> KeyAt(e, q)
    ensures var r, m' := InsertAt(e, l, (k, v)), m[k := v];
      && |m'| == |r|
      && (forall i :: 0 <= i < |r| ==> r[i].0 in m' && m'[r[i].0] == r[i].1)
      && forall q :: q in m' ==> KeyAt(r, q)
  {
    var r := InsertAt(e, l, (k, v));
    assert forall i :: 0 <= i < |r| ==> r[i] == if i == l then (k, v) else e[if i < l then i else i - 1];
    forall q | q in m[k := v]
      ensures KeyAt(r, q)
    {
      if q == k {
        assert r[l].0 == q;
      } else {
        var i :| 0 <= i < |e| && e[i].0 == q;
        assert r[if i < l then i else i + 1].0 == q;
      }
    }
  }

  lemma InsertedOrder<K(!new), V>(less: (K, K) -> bool, e: seq<(K, V)>, l: int, k: K, v: V)
    requires Ascending(less, e) && 0 <= l <= |e|
    requires (forall j :: 0 <= j < l ==> less(e[j].0, k)) && forall j :: l <= j < |e| ==> less(k, e[j].0)
    ensures Ascending(less, InsertAt(e, l, (k, v)))
  {
    var r := InsertAt(e, l, (k, v));
    assert forall i :: 0 <= i < |r| ==> r[i] == if i == l then (k, v) else e[if i < l then i else i - 1];
  }

  lemma {:induction false} CutDenotes<K(!new), V>(less: (K, K) -> bool, e: seq<(K, V)>, m: map<K, V>, i: nat, j: nat)
    requires StrictWeak(less) && Denotes(less, e, m) && i <= j <= |e|
    ensures Denotes(less, e[..i] + e[j..], m - KeysIn(e, i, j))
    decreases j - i
  {
    hide Denotes;
    if i == j {
      assert e[..i] + e[j..] == e;
      assert m - KeysIn(e, i, j) == m;
    } else {
      CutDenotes(less, e, m, i + 1, j);
      CutMore(e, i, j);
      CutOne(less, e[..i + 1] + e[j..], m - KeysIn(e, i + 1, j), i);
      MapCut(m, KeysIn(e, i + 1, j), e[i].0);
    }
  }

  lemma MapCut<K, V>(m: map<K, V>, s: set<K>, k: K)
    ensures (m - s) - {k} == m - ({k} + s)
  {
  }

  lemma CutMore<T>(e: seq<T>, i: nat, j: nat)
    requires i < j <= |e|
    ensures var e1 := e[..i + 1] + e[j..];
      i < |e1| && e1[i] == e[i] && RemoveAt(e1, i) == e[..i] + e[j..]
  {
  }

  lemma CutOne<K(!new), V>(less: (K, K) -> bool, e: seq<(K, V)>, m: map<K, V>, i: int)
    requires StrictWeak(less) && Denotes(less, e, m) && 0 <= i < |e|
    ensures Denotes(less, RemoveAt(e, i), m - {e[i].0})
  {
    forall n | 0 <= n < |e| && n != i
      ensures e[n].0 != e[i].0
    {
      if e[n].0 == e[i].0 {
        Distinct(less, e, n, i);
      }
    }
    CutOrder(less, e, i);
    CutKeys(e, m, i);
  }

  lemma CutOrder<K, V>(less: (K, K) -> bool, e: seq<(K, V)>, i: int)
    requires Ascending(less, e) && 0 <= i < |e|
    ensures Ascending(less, RemoveAt(e, i))
  {
    var r := RemoveAt(e, i);
    forall a, b | 0 <= a < b < |r|
      ensures less(r[a].0, r[b].0)
    {
      assert r[a] == e[if a < i then a else a + 1] && r[b] == e[if b < i then b else b + 1];
    }
  }

  lemma CutKeys<K, V>(e: seq<(K, V)>, m: map<K, V>, i: int)
    requires 0 <= i < |e| && |m| == |e| && forall n :: 0 <= n < |e| && n != i ==> e[n].0 != e[i].0
    requires forall n :: 0 <= n < |e| ==> e[n].0 in m && m[e[n].0] == e[n].1
    requires forall q :: q in m ==> KeyAt(e, q)
    ensures var r, m' := RemoveAt(e, i), m - {e[i].0};
      && |m'| == |r|
      && (forall n :: 0 <= n < |r| ==> r[n].0 in m' && m'[r[n].0] == r[n].1)
      && forall q :: q in m' ==> KeyAt(r, q)
  {
    var r, m' := RemoveAt(e, i), m - {e[i].0};
    forall n | 0 <= n < |r|
      ensures r[n].0 in m' && m'[r[n].0] == r[n].1
    {
      assert r[n] == e[if n < i then n else n + 1];
    }
    forall q | q in m'
      ensures KeyAt(r, q)
    {
      var n :| 0 <= n < |e| && e[n].0 == q;
      assert r[if n < i then n else n - 1].0 == q;
    }
    assert m'.Keys == m.Keys - {e[i].0} && |m'.Keys| == |m.Keys| - 1;
  }

  /** One call on the entries is the same call on the map they denote. */
  lemma StepRefines<K(!new), V>(less: (K, K) -> bool, none: V, e: seq<(K, V)>, m: map<K, V>, op: Op<K, V>)
    requires StrictWeak(less) && Denotes(less, e, m) && Legal(e, op)
    ensures Denotes(less, Step(less, none, e, op), MapStep(less, none, e, m, op))
  {
    match op
    case InsertPair(k, v) => InsertRefines(less, e, m, k, v);
    case InsertNear(_, k, v) => InsertRefines(less, e, m, k, v);
    case EraseAt(i) => CutOne(less, e, m, i);
    case EraseRange(i, j) => CutDenotes(less, e, m, i, j);
    case EraseKey(k) =>
      HasIsLike(less, e, m, k);
      if Has(less, e, k) {
        CutOne(less, e, m, LowerIndex(less, e, k));
      } else {
        assert m - {} == m;
      }
    case EraseAll =>
    case Subscript(k) => InsertRefines(less, e, m, k, none);
    case SubscriptAssign(k, v) => PutRefines(less, e, m, k, v);
  }

  lemma InsertRefines<K(!new), V>(less: (K, K) -> bool, e: seq<(K, V)>, m: map<K, V>, k: K, v: V)
    requires StrictWeak(less) && Denotes(less, e, m)
    ensures Denotes(less, Insert(less, e, k, v), MapInsert(less, m, k, v))
  {
    HasIsLike(less, e, m, k);
    if !Has(less, e, k) {
      InsertDenotes(less, e, m, k, v);
    }
  }

  lemma PutRefines<K(!new), V>(less: (K, K) -> bool, e: seq<(K, V)>, m: map<K, V>, k: K, v: V)
    requires StrictWeak(less) && Denotes(less, e, m)
    ensures Denotes(less, Put(less, e, k, v), MapPut(less, m, k, v))
  {
    hide StrictWeak, Denotes, LowerIndex, Like;
    HasIsLike(less, e, m, k);
    if Has(less, e, k) {
      var i := LowerIndex(less, e, k);
      PutDenotes(less, e, m, i, v);
      assert m[e[i].0 := v] == MapPut(less, m, k, v);
    } else {
      InsertDenotes(less, e, m, k, v);
    }
  }

  lemma PutDenotes<K(!new), V>(less: (K, K) -> bool, e: seq<(K, V)>, m: map<K, V>, i: int, v: V)
    requires StrictWeak(less) && Denotes(less, e, m) && 0 <= i < |e|
    ensures e[i].0 in m && Denotes(less, e[i := (e[i].0, v)], m[e[i].0 := v])
  {
    var r, m' := e[i := (e[i].0, v)], m[e[i].0 := v];
    forall n | 0 <= n < |r|
      ensures r[n].0 in m' && m'[r[n].0] == r[n].1
    {
      if n != i && e[n].0 == e[i].0 {
        Distinct(less, e, n, i);
      }
    }
    forall q | q in m'
      ensures KeyAt(r, q)
    {
      var n :| 0 <= n < |e| && e[n].0 == q;
      assert r[n].0 == q;
    }
    assert m'.Keys == m.Keys;
  }

  ghost function MapRun<K, V>(less: (K, K) -> bool, none: V, e: seq<(K, V)>, m: map<K, V>,
                              ops: seq<Op<K, V>>): map<K, V>
    requires RunLegal(less, none, e, ops)
    decreases |ops|
  {
    if ops == [] then m
    else MapRun(less, none, Step(less, none, e, ops[0]), MapStep(less, none, e, m, ops[0]), ops[1..])
  }

  /** Every run of map calls refines the same run on a mathematical map. */
  lemma {:induction false} RunRefines<K(!new), V>(less: (K, K) -> bool, none: V, e: seq<(K, V)>, m: map<K, V>,
                                                  ops: seq<Op<K, V>>)
    requires StrictWeak(less) && Denotes(less, e, m) && RunLegal(less, none, e, ops)
    ensures Denotes(less, Run(less, none, e, ops), MapRun(less, none, e, m, ops))
    decreases |ops|
  {
    if ops != [] {
      StepRefines(less, none, e, m, ops[0]);
      RunRefines(less, none, Step(less, none, e, ops[0]), MapStep(less, none, e, m, ops[0]), ops[1..]);
    }
  }

  lemma RunNone<K, V>(less: (K, K) -> bool, none: V, e: seq<(K, V)>, ops: seq<Op<K, V>>)
    ensures RunLegal(less, none, e, ops[..0]) && Run(less, none, e, ops[..0]) == e
  {
  }

  lemma SetInserted<T>(e: seq<T>, i: int, x: T, y: T)
    requires 0 <= i <= |e|
    ensures InsertAt(e, i, x)[i] == x && InsertAt(e, i, x)[i := y] == InsertAt(e, i, y)
  {
  }

  /** operator[] followed by a write through the reference it returns. */
  lemma PutAfterInsert<K, V>(less: (K, K) -> bool, e: seq<(K, V)>, k: K, none: V, v: V)
    ensures var i, e1 := LowerIndex(less, e, k), Insert(less, e, k, none);
      i < |e1| && e1[i := (e1[i].0, v)] == Put(less, e, k, v)
  {
    hide LowerIndex;
    SetInserted(e, LowerIndex(less, e, k), (k, none), (k, v));
  }

  lemma {:induction false} RunLast<K, V>(less: (K, K) -> bool, none: V, e: seq<(K, V)>, ops: seq<Op<K, V>>, i: nat)
    requires RunLegal(less, none, e, ops) && i < |ops|
    ensures RunLegal(less, none, e, ops[..i]) && RunLegal(less, none, e, ops[..i + 1])
    ensures Legal(Run(less, none, e, ops[..i]), ops[i])
    ensures Run(less, none, e, ops[..i + 1]) == Step(less, none, Run(less, none, e, ops[..i]), ops[i])
    decreases i
  {
    if i == 0 {
      assert ops[..1][1..] == [];
    } else {
      RunLast(less, none, Step(less, none, e, ops[0]), ops[1..], i - 1);
      assert ops[..i][1..] == ops[1..][..i - 1] && ops[..i + 1][1..] == ops[1..][..i];
    }
  }

  // ---------------------------------------------------------------- inserting an array of pairs

  /** No key of e is equivalent to k. */
  ghost predicate New<K, V>(less: (K, K) -> bool, e: seq<(K, V)>, k: K) {
    forall x :: x in e ==> less(x.0, k) || less(k, x.0)
  }

  lemma HasIsNew<K(!new), V>(less: (K, K) -> bool, e: seq<(K, V)>, k: K)
    requires StrictWeak(less) && Ascending(less, e)
    ensures Has(less, e, k) <==> !New(less, e, k)
  {
    LowerIndexIsLower(less, e, k);
    var l := LowerIndex(less, e, k);
    if Has(less, e, k) {
      assert e[l] in e;
    } else {
      AllAbove(less, e, k);
    }
  }

  /** Inserting a pair adds it in its place when its key is new, and changes nothing when it is not. */
  lemma InsertIs<K(!new), V>(less: (K, K) -> bool, e: seq<(K, V)>, k: K, v: V, p: (K, V))
    requires StrictWeak(less) && Ascending(less, e)
    ensures Ascending(less, Insert(less, e, k, v))
    ensures p in Insert(less, e, k, v) <==> p in e || (p == (k, v) && New(less, e, k))
  {
    HasIsNew(less, e, k);
    if !Has(less, e, k) {
      var l := LowerIndex(less, e, k);
      LowerIndexIsLower(less, e, k);
      AllAbove(less, e, k);
      InsertedOrder(less, e, l, k, v);
      assert e == e[..l] + e[l..];
      assert p in e <==> p in e[..l] || p in e[l..];
    }
  }

  // i is the first of the pairs v with a key equivalent to its own, and no key of e is.
  ghost predicate FirstNew<K, V>(less: (K, K) -> bool, e: seq<(K, V)>, v: seq<(K, V)>, i: int) {
    && 0 <= i < |v|
    && New(less, e, v[i].0)
    && forall j :: 0 <= j < i ==> less(v[j].0, v[i].0) || less(v[i].0, v[j].0)
  }

  lemma NewMore<K(!new), V>(less: (K, K) -> bool, e: seq<(K, V)>, v: (K, V), k: K)
    requires StrictWeak(less) && Ascending(less, e)
    ensures New(less, Insert(less, e, v.0, v.1), k) <==> New(less, e, k) && (less(v.0, k) || less(k, v.0))
  {
    hide Insert, Ascending;
    forall p: (K, V)
      ensures p in Insert(less, e, v.0, v.1) <==> p in e || (p == v && New(less, e, v.0))
    {
      InsertIs(less, e, v.0, v.1, p);
    }
    var r := Insert(less, e, v.0, v.1);
    if New(less, r, k) {
      assert forall x :: x in e ==> x in r;
      if New(less, e, v.0) {
        assert v in r;
      } else {
        var x :| x in e && !less(x.0, v.0) && !less(v.0, x.0);
        assert Lawful(less, k, v.0, x.0) && Lawful(less, x.0, v.0, k);
      }
    }
  }

  /** Inserting an array of pairs keeps what was there, and adds of the pairs with equivalent keys the first one. */
  lemma {:induction false} InsertAllIs<K(!new), V>(less: (K, K) -> bool, e: seq<(K, V)>, v: seq<(K, V)>, p: (K, V))
    requires StrictWeak(less) && Ascending(less, e)
    ensures Ascending(less, InsertAll(less, e, v))
    ensures p in InsertAll(less, e, v) <==> p in e || exists i :: FirstNew(less, e, v, i) && v[i] == p
    decreases |v|
  {
    if v != [] {
      hide Insert, Ascending, StrictWeak, New;
      var e1 := Insert(less, e, v[0].0, v[0].1);
      InsertIs(less, e, v[0].0, v[0].1, p);
      InsertAllIs(less, e1, v[1..], p);
      forall i | 0 < i < |v|
        ensures FirstNew(less, e1, v[1..], i - 1) <==> FirstNew(less, e, v, i)
      {
        NewMore(less, e, v[0], v[i].0);
        assert forall j :: 0 < j < i ==> v[1..][j - 1] == v[j];
        assert forall j :: 0 <= j < i - 1 ==> v[1..][j] == v[j + 1];
      }
      assert FirstNew(less, e, v, 0) <==> New(less, e, v[0].0);
      if i :| FirstNew(less, e1, v[1..], i) && v[1..][i] == p {
        assert FirstNew(less, e, v, i + 1);
      }
      if i :| FirstNew(less, e, v, i) && v[i] == p {
        assert i > 0 ==> FirstNew(less, e1, v[1..], i - 1);
      }
    }
  }
}
