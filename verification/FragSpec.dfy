/** Lists of memory fragments as sequences: what inserting one does to the list, to its length and
    to the bytes read from it. */
module FragSpec {
  import opened SeqEdits
  import opened Words

  type byte = b: int | 0 <= b < 256

  /** Where a fragment's bytes are: in the group's own buffer or somewhere else. */
  datatype Ptr = Null | Local(off: nat) | Foreign(address: nat)

  datatype Fragment = Fragment(ptr: Ptr, len: nat)

  const EMPTY := Fragment(Null, 0)

  /** A position inside the list is taken over if the slot there is empty and else makes room; any
      other position appends. */
  function Place<T>(s: seq<T>, taken: bool, at: int, x: T): (r: seq<T>)
    ensures |r| == |s| + if 0 <= at < |s| && !taken then 0 else 1
  {
    if 0 <= at < |s| then if taken then InsertAt(s, at, x) else s[at := x] else s + [x]
  }

  /** A position outside the list puts the new element at the end; one inside puts it there, in an empty slot or before
      what stands at it.  All others keep their order. */
  lemma PlaceIs<T>(s: seq<T>, taken: bool, at: int, x: T)
    ensures var r := Place(s, taken, at, x);
      if at < 0 || at >= |s| then |r| == |s| + 1 && r[|s|] == x && forall i :: 0 <= i < |s| ==> r[i] == s[i]
      else
        && |r| == (if taken then |s| + 1 else |s|) && r[at] == x
        && (forall i :: 0 <= i < at ==> r[i] == s[i])
        && forall i :: at < i < |r| ==> r[i] == if taken then s[i - 1] else s[i]
  {
  }

  /** Where the new element ends up. */
  function PlaceAt(n: nat, at: int): nat {
    if 0 <= at < n then at else n
  }

  function Sum(s: seq<Fragment>): nat {
    if s == [] then 0 else Sum(s[..|s| - 1]) + s[|s| - 1].len
  }

  function Concat<T>(s: seq<seq<T>>): seq<T> {
    if s == [] then [] else Concat(s[..|s| - 1]) + s[|s| - 1]
  }

  lemma {:induction false} SumSplit(s: seq<Fragment>, t: seq<Fragment>)
    ensures Sum(s + t) == Sum(s) + Sum(t)
  {
    if t == [] {
      assert s + t == s;
    } else {
      SumSplit(s, t[..|t| - 1]);
      assert (s + t)[..|s + t| - 1] == s + t[..|t| - 1];
    }
  }

  lemma {:induction false} ConcatSplit<T>(s: seq<seq<T>>, t: seq<seq<T>>)
    ensures Concat(s + t) == Concat(s) + Concat(t)
  {
    if t == [] {
      assert s + t == s;
    } else {
      ConcatSplit(s, t[..|t| - 1]);
      assert (s + t)[..|s + t| - 1] == s + t[..|t| - 1];
    }
  }

  lemma SumOne(f: Fragment)
    ensures Sum([f]) == f.len
  {
    assert [f][..0] == [];
  }

  lemma ConcatOne<T>(p: seq<T>)
    ensures Concat([p]) == p
  {
    assert [p][..0] == [];
  }

  // The empty slot that is taken over, if any, and what follows the new element.
  function Gap<T>(s: seq<T>, taken: bool, at: int): seq<T> {
    if 0 <= at < |s| && !taken then [s[at]] else []
  }

  function Rest<T>(s: seq<T>, taken: bool, at: int): seq<T> {
    s[PlaceAt(|s|, at) + |Gap(s, taken, at)|..]
  }

  lemma PlaceSplit<T>(s: seq<T>, taken: bool, at: int, x: T)
    ensures Place(s, taken, at, x) == s[..PlaceAt(|s|, at)] + ([x] + Rest(s, taken, at))
    ensures s[PlaceAt(|s|, at)..] == Gap(s, taken, at) + Rest(s, taken, at)
    ensures s == s[..PlaceAt(|s|, at)] + s[PlaceAt(|s|, at)..]
  {
  }

  lemma PlaceMembers<T>(s: seq<T>, taken: bool, at: int, x: T)
    ensures forall y :: y in Place(s, taken, at, x) ==> y in s || y == x
  {
  }

  /** The length of the list grows by that of the new fragment, wherever it goes. */
  lemma SumPlace(s: seq<Fragment>, taken: bool, at: int, f: Fragment)
    requires 0 <= at < |s| && !taken ==> s[at].len == 0
    ensures Sum(Place(s, taken, at, f)) == Sum(s) + f.len
  {
    hide Place, Rest;
    PlaceSplit(s, taken, at, f);
    var k, gap, rest := PlaceAt(|s|, at), Gap(s, taken, at), Rest(s, taken, at);
    SumSplit(s[..k], [f] + rest);
    SumSplit([f], rest);
    SumOne(f);
    SumSplit(s[..k], s[k..]);
    SumSplit(gap, rest);
    if gap != [] {
      SumOne(s[k]);
    }
  }

  /** The new bytes appear before those of the fragment at that position, or after all others if there is none;
      all others stay in order. */
  lemma ConcatPlace<T>(s: seq<seq<T>>, taken: bool, at: int, p: seq<T>)
    requires 0 <= at < |s| && !taken ==> s[at] == []
    ensures if 0 <= at < |s| then
        Concat(Place(s, taken, at, p)) == Concat(s[..at]) + (p + Concat(s[at..]))
          && Concat(s) == Concat(s[..at]) + Concat(s[at..])
      else Concat(Place(s, taken, at, p)) == Concat(s) + p
  {
    hide Place, Concat;
    ConcatAround(s, taken, at, p);
    if !(0 <= at < |s|) {
      PlaceIs(s, taken, at, p);
      assert s[..|s|] == s && s[|s|..] == [];
      ConcatNone<T>();
    }
  }

  lemma ConcatNone<T>()
    ensures Concat<T>([]) == []
  {
  }

  lemma ConcatAround<T>(s: seq<seq<T>>, taken: bool, at: int, p: seq<T>)
    requires 0 <= at < |s| && !taken ==> s[at] == []
    ensures var k := PlaceAt(|s|, at);
      Concat(Place(s, taken, at, p)) == Concat(s[..k]) + (p + Concat(s[k..]))
        && Concat(s) == Concat(s[..k]) + Concat(s[k..])
  {
    hide Place, Rest;
    PlaceSplit(s, taken, at, p);
    var k, gap, rest := PlaceAt(|s|, at), Gap(s, taken, at), Rest(s, taken, at);
    ConcatSplit(s[..k], [p] + rest);
    ConcatSplit([p], rest);
    ConcatOne(p);
    ConcatSplit(s[..k], s[k..]);
    ConcatSplit(gap, rest);
    if gap != [] {
      ConcatOne(s[k]);
      assert [] + Concat(rest) == Concat(rest);
    } else {
      assert gap + rest == rest;
    }
  }

  lemma {:induction false} ConcatLength<T>(fs: seq<Fragment>, ps: seq<seq<T>>)
    requires |fs| == |ps| && forall i :: 0 <= i < |fs| ==> |ps[i]| == fs[i].len
    ensures |Concat(ps)| == Sum(fs)
  {
    if fs != [] {
      ConcatLength(fs[..|fs| - 1], ps[..|ps| - 1]);
    }
  }

  /** How often x occurs. */
  function Count<T(==)>(s: seq<T>, x: T): nat {
    if s == [] then 0 else Count(s[..|s| - 1], x) + if s[|s| - 1] == x then 1 else 0
  }

  lemma {:induction false} CountSplit<T>(s: seq<T>, t: seq<T>, x: T)
    ensures Count(s + t, x) == Count(s, x) + Count(t, x)
  {
    if t == [] {
      assert s + t == s;
    } else {
      CountSplit(s, t[..|t| - 1], x);
      assert (s + t)[..|s + t| - 1] == s + t[..|t| - 1];
    }
  }

  lemma CountPlace<T>(s: seq<T>, taken: bool, at: int, y: T, x: T)
    ensures Count(Place(s, taken, at, y), x) == Count(s, x) + Count([y], x) - Count(Gap(s, taken, at), x)
  {
    hide Place, Rest, Gap;
    PlaceSplit(s, taken, at, y);
    var k, gap, rest := PlaceAt(|s|, at), Gap(s, taken, at), Rest(s, taken, at);
    CountSplit(s[..k], [y] + rest, x);
    CountSplit([y], rest, x);
    CountSplit(s[..k], s[k..], x);
    CountSplit(gap, rest, x);
  }

  lemma CountOne<T>(y: T, x: T)
    ensures Count([y], x) == if y == x then 1 else 0
  {
    assert [y][..0] == [];
  }

  lemma CountNone<T>(s: seq<T>, x: T)
    requires s == []
    ensures Count(s, x) == 0
  {
  }

  lemma CountNext<T>(s: seq<T>, i: nat, x: T)
    requires i < |s|
    ensures Count(s[..i + 1], x) == Count(s[..i], x) + (if s[i] == x then 1 else 0) <= Count(s, x)
  {
    assert s[..i + 1][..i] == s[..i] && s == s[..i + 1] + s[i + 1..];
    CountSplit(s[..i + 1], s[i + 1..], x);
  }

  lemma CountMember<T>(s: seq<T>, i: nat)
    requires i < |s|
    ensures Count(s, s[i]) > 0
  {
    CountNext(s, i, s[i]);
  }

  lemma {:induction false} CountAbsent<T>(s: seq<T>, x: T)
    requires x !in s
    ensures Count(s, x) == 0
  {
    if s != [] {
      CountAbsent(s[..|s| - 1], x);
    }
  }

  /** How often x occurs in all the lists together. */
  function Total<T(==)>(ss: seq<seq<T>>, x: T): nat {
    if ss == [] then 0 else Total(ss[..|ss| - 1], x) + Count(ss[|ss| - 1], x)
  }

  lemma {:induction false} TotalMoves<T>(ss: seq<seq<T>>, i: nat, s: seq<T>, x: T)
    requires i < |ss|
    ensures Total(ss[i := s], x) == Total(ss, x) + Count(s, x) - Count(ss[i], x)
  {
    var n := |ss| - 1;
    if i < n {
      TotalMoves(ss[..n], i, s, x);
      assert ss[i := s][..n] == ss[..n][i := s];
    } else {
      assert ss[i := s][..n] == ss[..n];
    }
  }

  lemma {:induction false} TotalCovers<T>(ss: seq<seq<T>>, i: nat, x: T)
    requires i < |ss|
    ensures Total(ss, x) >= Count(ss[i], x)
  {
    if i < |ss| - 1 {
      TotalCovers(ss[..|ss| - 1], i, x);
    }
  }

  lemma {:induction false} TotalNone<T>(ss: seq<seq<T>>, x: T)
    requires forall i :: 0 <= i < |ss| ==> x !in ss[i]
    ensures Total(ss, x) == 0
  {
    if ss != [] {
      TotalNone(ss[..|ss| - 1], x);
      CountAbsent(ss[|ss| - 1], x);
    }
  }

  // ---------------------------------------------------------------- the guard

  // What AddFragment tests, and the last slot that storing the fragment then writes.
  predicate GuardPasses(num: nat, maxFrags: nat) {
    !(num > maxFrags)
  }

  function LastWritten(num: nat, taken: bool, at: int): nat {
    if 0 <= at < num && !taken then at else num
  }

  /** The guard lets a write past the arrays through exactly when the group is full and no empty slot is taken over. */
  lemma GuardMisses(num: nat, maxFrags: nat, taken: bool, at: int)
    ensures GuardPasses(num, maxFrags) && LastWritten(num, taken, at) >= maxFrags <==>
      num == maxFrags && !(0 <= at < num && !taken)
  {
  }

  /** Two fragments in a group of two: the guard passes, and both an insertion and an append write slot 2. */
  lemma FullGroupFails()
    ensures GuardPasses(2, 2) && LastWritten(2, true, 0) == 2 && LastWritten(2, true, 2) == 2
  {
  }

  // ---------------------------------------------------------------- fragments of the local buffer

  /** f and g share no local byte. */
  predicate Apart(f: Fragment, g: Fragment) {
    f.ptr.Local? && g.ptr.Local? ==> f.ptr.off + f.len <= g.ptr.off || g.ptr.off + g.len <= f.ptr.off
  }

  ghost predicate AllApart(s: seq<Fragment>) {
    forall i, j :: 0 <= i < j < |s| ==> Apart(s[i], s[j])
  }

  predicate Within(f: Fragment, used: int) {
    f.ptr.Local? ==> f.ptr.off + f.len <= used
  }

  lemma PlaceApart(s: seq<Fragment>, taken: bool, at: int, f: Fragment)
    requires AllApart(s) && forall i :: 0 <= i < |s| ==> Apart(s[i], f)
    ensures AllApart(Place(s, taken, at, f))
  {
    var r, k := Place(s, taken, at, f), PlaceAt(|s|, at);
    var d := |r| - |s|;
    assert forall i :: 0 <= i < |r| ==> r[i] == if i == k then f else s[if i < k then i else i - d];
  }

  function OnlyLocal(s: seq<Fragment>): (r: seq<Fragment>)
    ensures |r| == |s| && forall i :: 0 <= i < |s| ==> r[i] == if s[i].ptr.Local? then s[i] else EMPTY
  {
    seq(|s|, i requires 0 <= i < |s| => if s[i].ptr.Local? then s[i] else EMPTY)
  }

  /** How many bytes of the local buffer the fragments take. */
  function LocalBytes(s: seq<Fragment>): nat {
    Sum(OnlyLocal(s))
  }

  lemma LocalPlace(s: seq<Fragment>, taken: bool, at: int, f: Fragment)
    requires 0 <= at < |s| && !taken ==> s[at] == EMPTY
    ensures LocalBytes(Place(s, taken, at, f)) == LocalBytes(s) + if f.ptr.Local? then f.len else 0
  {
    var f' := if f.ptr.Local? then f else EMPTY;
    assert OnlyLocal(Place(s, taken, at, f)) == Place(OnlyLocal(s), taken, at, f');
    SumPlace(OnlyLocal(s), taken, at, f');
  }

  // ---------------------------------------------------------------- reading

  /** The bytes of a fragment; outside(f) is what memory elsewhere holds. */
  function Read(buf: seq<byte>, outside: Fragment -> seq<byte>, f: Fragment): seq<byte> {
    match f.ptr
    case Null => []
    case Local(off) => if off + f.len <= |buf| then buf[off..off + f.len] else []
    case Foreign(_) => outside(f)
  }

  function ReadAll(buf: seq<byte>, outside: Fragment -> seq<byte>, fs: seq<Fragment>): (r: seq<seq<byte>>)
    ensures |r| == |fs| && forall i :: 0 <= i < |fs| ==> r[i] == Read(buf, outside, fs[i])
  {
    seq(|fs|, i requires 0 <= i < |fs| => Read(buf, outside, fs[i]))
  }

  lemma ReadPlace(buf: seq<byte>, outside: Fragment -> seq<byte>, fs: seq<Fragment>, taken: bool, at: int, f: Fragment)
    ensures ReadAll(buf, outside, Place(fs, taken, at, f)) ==
      Place(ReadAll(buf, outside, fs), taken, at, Read(buf, outside, f))
  {
    hide Read;
  }

  // Writing past `used` changes nothing that is read below it.
  lemma ReadKept(buf: seq<byte>, buf': seq<byte>, outside: Fragment -> seq<byte>, fs: seq<Fragment>, used: nat)
    requires used <= |buf| == |buf'| && buf[..used] == buf'[..used]
    requires forall i :: 0 <= i < |fs| ==> Within(fs[i], used)
    ensures ReadAll(buf, outside, fs) == ReadAll(buf', outside, fs)
  {
    forall i | 0 <= i < |fs|
      ensures Read(buf, outside, fs[i]) == Read(buf', outside, fs[i])
    {
      assert Within(fs[i], used);
      if fs[i].ptr.Local? {
        var off, len := fs[i].ptr.off, fs[i].len;
        assert buf[off..off + len] == buf[..used][off..off + len] == buf'[off..off + len];
      }
    }
  }

  /** Local fragments lie in the part given out and apart from each other; the others have the length they say. */
  ghost predicate Placed(outside: Fragment -> seq<byte>, fs: seq<Fragment>, used: nat) {
    && (forall i :: 0 <= i < |fs| ==> Within(fs[i], used) && (fs[i].ptr.Foreign? ==> |outside(fs[i])| == fs[i].len))
    && AllApart(fs)
  }

  lemma PlacedMore(outside: Fragment -> seq<byte>, fs: seq<Fragment>, taken: bool, at: int, f: Fragment, used: nat,
                   used': nat)
    requires Placed(outside, fs, used) && used <= used' && Within(f, used')
    requires f.ptr.Foreign? ==> |outside(f)| == f.len
    requires forall i :: 0 <= i < |fs| ==> Apart(fs[i], f)
    ensures Placed(outside, Place(fs, taken, at, f), used')
  {
    var r := Place(fs, taken, at, f);
    PlaceApart(fs, taken, at, f);
    PlaceMembers(fs, taken, at, f);
    forall i | 0 <= i < |r|
      ensures Within(r[i], used') && (r[i].ptr.Foreign? ==> |outside(r[i])| == r[i].len)
    {
      assert r[i] in fs || r[i] == f;
    }
  }

  /** A local copy of src, made just past the part given out, reads as src and disturbs nothing. */
  lemma CopyPlaced(buf: seq<byte>, buf': seq<byte>, outside: Fragment -> seq<byte>, fs: seq<Fragment>,
                   taken: bool, at: int, used: nat, src: seq<byte>)
    requires Placed(outside, fs, used) && used + |src| <= |buf| == |buf'|
    requires buf'[..used] == buf[..used] && buf'[used..used + |src|] == src
    ensures var f := Fragment(Local(used), |src|);
      && Placed(outside, Place(fs, taken, at, f), used + |src|)
      && ReadAll(buf', outside, Place(fs, taken, at, f)) == Place(ReadAll(buf, outside, fs), taken, at, src)
  {
    var f := Fragment(Local(used), |src|);
    forall i | 0 <= i < |fs|
      ensures Apart(fs[i], f)
    {
      assert Within(fs[i], used);
    }
    PlacedMore(outside, fs, taken, at, f, used, used + |src|);
    ReadKept(buf, buf', outside, fs, used);
    ReadPlace(buf', outside, fs, taken, at, f);
  }

  /** Inserting byte strings into a list of them, as far as `space` bytes go; the empty string is not added. */
  function Inserted(space: nat, ops: seq<(seq<byte>, int)>): seq<seq<byte>> {
    if ops == [] then []
    else
      var ps, op := Inserted(space, ops[..|ops| - 1]), ops[|ops| - 1];
      if op.0 == [] || |op.0| > space - |Concat(ps)| then ps else Place(ps, true, op.1, op.0)
  }

  lemma {:induction false} InsertedFits(space: nat, ops: seq<(seq<byte>, int)>)
    ensures |Concat(Inserted(space, ops))| <= space && |Inserted(space, ops)| <= |ops|
  {
    if ops != [] {
      InsertedFits(space, ops[..|ops| - 1]);
      var ps, op := Inserted(space, ops[..|ops| - 1]), ops[|ops| - 1];
      ConcatPlace(ps, true, op.1, op.0);
    }
  }

  lemma {:induction false} InsertedGrows(space: nat, ops: seq<(seq<byte>, int)>, n: nat)
    requires n <= |ops|
    ensures |Inserted(space, ops[..n])| <= |Inserted(space, ops)|
  {
    if n == |ops| {
      assert ops[..n] == ops;
    } else {
      InsertedGrows(space, ops[..|ops| - 1], n);
      assert ops[..|ops| - 1][..n] == ops[..n];
    }
  }

  lemma InsertedNext(space: nat, ops: seq<(seq<byte>, int)>, n: nat)
    requires n < |ops|
    ensures var ps, op := Inserted(space, ops[..n]), ops[n];
      Inserted(space, ops[..n + 1]) ==
        if op.0 == [] || |op.0| > space - |Concat(ps)| then ps else Place(ps, true, op.1, op.0)
  {
    assert ops[..n + 1][..n] == ops[..n];
  }

  lemma ConcatGrows<T>(ps: seq<seq<T>>, at: int, p: seq<T>)
    ensures |Concat(Place(ps, true, at, p))| == |Concat(ps)| + |p|
  {
    ConcatPlace(ps, true, at, p);
  }

  lemma TakenOutside<T>(s: seq<T>, taken: bool, at: int, x: T)
    requires 0 <= at < |s| ==> taken
    ensures Place(s, taken, at, x) == Place(s, true, at, x)
  {
  }
}
