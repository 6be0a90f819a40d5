/** The text of a UUID, "(0x..,0x..,...)" with eleven hexadecimal fields, and what reading it gives. */
module UuidText {

  // data4 has 8 elements.
  datatype Value = Value(data1: int, data2: int, data3: int, data4: seq<int>)

  const ZERO := Value(0, 0, 0, [0, 0, 0, 0, 0, 0, 0, 0])
  const FIELDS := 11

  predicate Fits(v: Value) {
    && 0 <= v.data1 < 0x1_0000_0000
    && 0 <= v.data2 < 0x1_0000 && 0 <= v.data3 < 0x1_0000
    && |v.data4| == 8
    && forall i :: 0 <= i < 8 ==> 0 <= v.data4[i] < 0x100
  }

  // ---------------------------------------------------------------- hexadecimal numbers

  function Digit(c: char): int {
    if '0' <= c <= '9' then c as int - '0' as int
    else if 'a' <= c <= 'f' then c as int - 'a' as int + 10
    else if 'A' <= c <= 'F' then c as int - 'A' as int + 10
    else -1
  }

  predicate IsHex(s: string) {
    s != [] && forall i :: 0 <= i < |s| ==> Digit(s[i]) >= 0
  }

  function HexValue(s: string): int {
    if s == [] then 0 else 16 * HexValue(s[..|s| - 1]) + Digit(s[|s| - 1])
  }

  /** atoi(text, at, length) is the number that PV_atoi(text + at, 'x', length, value) leaves in value. */
  type Reader = (string, int, int) -> int

  /** What it promises: digits of exactly that length are decoded.  Nothing is known of it otherwise,
      and in particular not when the length is negative. */
  ghost predicate Decodes(atoi: Reader) {
    && (forall text, at, length :: 0 <= atoi(text, at, length) < 0x1_0000_0000)
    && (forall text, at, length :: 0 <= at <= at + length <= |text| && Readable(text[at..at + length]) ==>
          atoi(text, at, length) == HexValue(text[at..at + length]))
  }

  predicate Readable(h: string) {
    IsHex(h) && HexValue(h) < 0x1_0000_0000
  }

  // ---------------------------------------------------------------- reading

  predicate Ends(c: char) {
    c == ',' || c == ')'
  }

  /** Number n, the k-th one read, in the field it belongs to, cut to the field's width. */
  function Put(v: Value, k: int, n: int): Value
    requires |v.data4| == 8
  {
    if k == 1 then v.(data1 := n)
    else if k == 2 then v.(data2 := n % 0x1_0000)
    else if k == 3 then v.(data3 := n % 0x1_0000)
    else if 4 <= k <= FIELDS then v.(data4 := v.data4[k - 4 := n % 0x100])
    else v
  }

  /** Read on from eptr after k numbers, when the field of the next one starts at sptr.  Its first two
      characters are skipped unseen: a shorter field has a negative length. */
  function Scan(atoi: Reader, text: string, v: Value, k: nat, sptr: nat, eptr: nat): (r: Value)
    requires |v.data4| == 8
    ensures |r.data4| == 8
    decreases |text| - eptr
  {
    if eptr >= |text| then v
    else if !Ends(text[eptr]) then Scan(atoi, text, v, k, sptr, eptr + 1)
    else
      var w := Put(v, k + 1, atoi(text, sptr + 2, eptr - (sptr + 2)));
      if text[eptr] == ')' then w else Scan(atoi, text, w, k + 1, eptr + 1, eptr + 1)
  }

  function Parse(atoi: Reader, text: string): Value {
    if text == [] then ZERO else Scan(atoi, text, ZERO, 0, 1, 1)
  }

  // ---------------------------------------------------------------- writing

  function HexDigit(d: int): char
    requires 0 <= d < 16
  {
    if d < 10 then ('0' as int + d) as char else ('a' as int + d - 10) as char
  }

  function Hex(n: nat): string {
    (if n < 16 then [] else Hex(n / 16)) + [HexDigit(n % 16)]
  }

  lemma {:induction false} HexDecodes(n: nat)
    ensures IsHex(Hex(n)) && HexValue(Hex(n)) == n
  {
    var d := HexDigit(n % 16);
    assert Digit(d) == n % 16;
    if n < 16 {
      assert Hex(n) == [d] && [d][..0] == [];
      assert HexValue([d]) == 16 * HexValue([d][..0]) + Digit(d);
    } else {
      HexDecodes(n / 16);
      assert Hex(n)[..|Hex(n)| - 1] == Hex(n / 16);
    }
  }

  /** Numbers in their text form, each after "0x" and followed by a comma or, the last one, by the bracket. */
  function Fields(hs: seq<string>): string {
    if hs == [] then []
    else "0x" + hs[0] + [if |hs| == 1 then ')' else ','] + Fields(hs[1..])
  }

  function Text(hs: seq<string>): string {
    "(" + Fields(hs)
  }

  function Numbers(v: Value): seq<int> {
    [v.data1, v.data2, v.data3] + v.data4
  }

  function AllHex(ns: seq<int>): seq<string>
    requires forall i :: 0 <= i < |ns| ==> ns[i] >= 0
  {
    seq(|ns|, i requires 0 <= i < |ns| => Hex(ns[i]))
  }

  // ---------------------------------------------------------------- reading what was written

  function NumberAt(ns: seq<int>, k: nat): int {
    if k < |ns| then ns[k] else 0
  }

  /** The first eleven numbers, each cut to the width of its field; missing ones are 0. */
  function Cut(ns: seq<int>): (v: Value)
    ensures |v.data4| == 8
  {
    Value(NumberAt(ns, 0), NumberAt(ns, 1) % 0x1_0000, NumberAt(ns, 2) % 0x1_0000,
          seq(8, i requires 0 <= i => NumberAt(ns, 3 + i) % 0x100))
  }

  lemma PutNext(ns: seq<int>, n: int)
    ensures Put(Cut(ns), |ns| + 1, n) == Cut(ns + [n])
  {
    var v, w := Put(Cut(ns), |ns| + 1, n), Cut(ns + [n]);
    assert forall k: nat :: NumberAt(ns + [n], k) == if k == |ns| then n else NumberAt(ns, k);
    assert forall i :: 0 <= i < 8 ==> v.data4[i] == w.data4[i];
    assert v.data4 == w.data4;
  }

  function Values(hs: seq<string>): (r: seq<int>)
    ensures |r| == |hs| && forall i :: 0 <= i < |hs| ==> r[i] == HexValue(hs[i])
  {
    seq(|hs|, i requires 0 <= i < |hs| => HexValue(hs[i]))
  }

  lemma {:induction false} ScanField(atoi: Reader, text: string, v: Value, k: nat, sptr: nat, p: nat, eptr: nat)
    requires |v.data4| == 8 && p <= eptr < |text| && Ends(text[eptr]) && forall i :: p <= i < eptr ==> !Ends(text[i])
    ensures Scan(atoi, text, v, k, sptr, p) ==
      var w := Put(v, k + 1, atoi(text, sptr + 2, eptr - (sptr + 2)));
      if text[eptr] == ')' then w else Scan(atoi, text, w, k + 1, eptr + 1, eptr + 1)
    decreases eptr - p
  {
    if p < eptr {
      ScanField(atoi, text, v, k, sptr, p + 1, eptr);
    }
  }

  lemma FieldsSplit(hs: seq<string>, rest: string)
    requires hs != []
    ensures Fields(hs) + rest == ("0x" + hs[0]) + ([if |hs| == 1 then ')' else ','] + (Fields(hs[1..]) + rest))
  {
    Regroup("0x" + hs[0], [if |hs| == 1 then ')' else ','], Fields(hs[1..]), rest);
  }

  lemma Regroup<T>(a: seq<T>, b: seq<T>, c: seq<T>, d: seq<T>)
    ensures a + b + c + d == a + (b + (c + d))
  {
  }

  lemma {:induction false} ScanFields(atoi: Reader, text: string, at: nat, ns: seq<int>, hs: seq<string>, rest: string)
    requires Decodes(atoi) && hs != [] && forall i :: 0 <= i < |hs| ==> Readable(hs[i])
    requires at <= |text| && text[at..] == Fields(hs) + rest
    ensures Scan(atoi, text, Cut(ns), |ns|, at, at) == Cut(ns + Values(hs))
    decreases |hs|
  {
    hide Cut, Scan, HexValue, Fields, IsHex, Values, Decodes;
    FieldsSplit(hs, rest);
    var next := ReadField(atoi, text, at, ns, hs[0], if |hs| == 1 then ')' else ',', Fields(hs[1..]) + rest);
    HeadValue(ns, hs);
    if |hs| > 1 {
      ScanFields(atoi, text, next, ns + [HexValue(hs[0])], hs[1..], rest);
    }
  }

  lemma HeadValue(ns: seq<int>, hs: seq<string>)
    requires hs != []
    ensures ns + Values(hs) == ns + [HexValue(hs[0])] + Values(hs[1..])
    ensures |hs| == 1 ==> ns + Values(hs) == ns + [HexValue(hs[0])]
  {
  }

  lemma HexNeverEnds(h: string)
    requires IsHex(h)
    ensures forall i :: 0 <= i < |"0x" + h| ==> !Ends(("0x" + h)[i])
  {
    assert forall i :: 0 <= i < |h| ==> Digit(h[i]) >= 0;
  }

  // Where a field with the text h stands, ended by e, when `tail` follows it.
  lemma FieldAt(text: string, at: nat, h: string, e: char, tail: string)
    requires at <= |text| && text[at..] == ("0x" + h) + ([e] + tail)
    ensures var end := at + 2 + |h|;
      && end < |text| && text[at..end] == "0x" + h && text[at + 2..end] == h
      && text[end] == e && text[end + 1..] == tail
  {
    var f := "0x" + h;
    assert text[at..][..|f|] == f && text[at..][|f|] == e && text[at..][|f| + 1..] == tail;
  }

  lemma ReadField(atoi: Reader, text: string, at: nat, ns: seq<int>, h: string, e: char, tail: string)
    returns (next: nat)
    requires Decodes(atoi) && Readable(h) && at <= |text| && text[at..] == ("0x" + h) + ([e] + tail) && Ends(e)
    ensures next <= |text| && text[next..] == tail
    ensures Scan(atoi, text, Cut(ns), |ns|, at, at) ==
      var v := Cut(ns + [HexValue(h)]);
      if e == ')' then v else Scan(atoi, text, v, |ns| + 1, next, next)
  {
    hide Cut, Put, Scan, HexValue, IsHex;
    var end := at + 2 + |h|;
    FieldAt(text, at, h, e, tail);
    HexNeverEnds(h);
    assert forall i :: at <= i < end ==> text[i] == text[at..end][i - at];
    ScanField(atoi, text, Cut(ns), |ns|, at, at, end);
    PutNext(ns, HexValue(h));
    next := end + 1;
  }

  /** Any number of fields in text form reads as their numbers, cut to the fields; what follows the bracket is
      ignored. */
  lemma ParseText(atoi: Reader, hs: seq<string>, rest: string)
    requires Decodes(atoi) && hs != [] && forall i :: 0 <= i < |hs| ==> Readable(hs[i])
    ensures Parse(atoi, Text(hs) + rest) == Cut(Values(hs))
  {
    hide Scan, Fields, Values;
    assert (Text(hs) + rest)[1..] == Fields(hs) + rest;
    ScanFields(atoi, Text(hs) + rest, 1, [], hs, rest);
    assert [] + Values(hs) == Values(hs);
    CutNone();
  }

  lemma CutNone()
    ensures Cut([]) == ZERO
  {
    assert Cut([]).data4 == ZERO.data4;
  }

  lemma CutFits(v: Value)
    requires Fits(v)
    ensures Cut(Numbers(v)) == v
  {
    assert forall i :: 0 <= i < 8 ==> Numbers(v)[3 + i] == v.data4[i];
    assert Cut(Numbers(v)).data4 == v.data4;
  }

  /** Round trip: any text form of a UUID, with any number of digits, reads back as that UUID. */
  lemma RoundTrip(atoi: Reader, v: Value, hs: seq<string>)
    requires Decodes(atoi) && Fits(v)
    requires |hs| == FIELDS && forall i :: 0 <= i < FIELDS ==> IsHex(hs[i]) && HexValue(hs[i]) == Numbers(v)[i]
    ensures Parse(atoi, Text(hs)) == v
  {
    hide HexValue, IsHex, Parse, Text, Cut;
    NumbersSmall(v);
    ParseText(atoi, hs, []);
    assert Text(hs) + [] == Text(hs);
    assert Values(hs) == Numbers(v);
    CutFits(v);
  }

  lemma NumbersSmall(v: Value)
    requires Fits(v)
    ensures forall i :: 0 <= i < FIELDS ==> 0 <= Numbers(v)[i] < 0x1_0000_0000
  {
  }

  /** Every UUID has such a text. */
  lemma PrintParse(atoi: Reader, v: Value)
    requires Decodes(atoi) && Fits(v)
    ensures (forall i :: 0 <= i < FIELDS ==> Numbers(v)[i] >= 0) && Parse(atoi, Text(AllHex(Numbers(v)))) == v
  {
    hide Parse, Text, Hex, HexValue, IsHex;
    NumbersSmall(v);
    var hs := AllHex(Numbers(v));
    forall i | 0 <= i < FIELDS
      ensures IsHex(hs[i]) && HexValue(hs[i]) == Numbers(v)[i]
    {
      HexDecodes(Numbers(v)[i]);
    }
    RoundTrip(atoi, v, hs);
  }

  // ---------------------------------------------------------------- every text

  lemma {:induction false} ScanFits(atoi: Reader, text: string, v: Value, k: nat, sptr: nat, eptr: nat)
    requires Decodes(atoi) && Fits(v)
    ensures Fits(Scan(atoi, text, v, k, sptr, eptr))
    decreases |text| - eptr
  {
    if eptr < |text| && !Ends(text[eptr]) {
      ScanFits(atoi, text, v, k, sptr, eptr + 1);
    } else if eptr < |text| && text[eptr] != ')' {
      ScanFits(atoi, text, Put(v, k + 1, atoi(text, sptr + 2, eptr - (sptr + 2))), k + 1, eptr + 1, eptr + 1);
    }
  }

  /** Whatever the text, every field of the result fits its width. */
  lemma ParseFits(atoi: Reader, text: string)
    requires Decodes(atoi)
    ensures Fits(Parse(atoi, text))
  {
    ScanFits(atoi, text, ZERO, 0, 1, 1);
  }

  /** Fields in text form, each followed by a comma. */
  function Open(hs: seq<string>): string {
    if hs == [] then [] else "0x" + hs[0] + [','] + Open(hs[1..])
  }

  lemma {:induction false} ScanRest(atoi: Reader, text: string, v: Value, k: nat, sptr: nat, eptr: nat)
    requires |v.data4| == 8 && forall i :: eptr <= i < |text| ==> !Ends(text[i])
    ensures Scan(atoi, text, v, k, sptr, eptr) == v
    decreases |text| - eptr
  {
    if eptr < |text| {
      ScanRest(atoi, text, v, k, sptr, eptr + 1);
    }
  }

  lemma {:induction false} ScanOpen(atoi: Reader, text: string, at: nat, ns: seq<int>, hs: seq<string>, rest: string)
    requires Decodes(atoi) && forall i :: 0 <= i < |hs| ==> Readable(hs[i])
    requires at <= |text| && text[at..] == Open(hs) + rest && forall i :: 0 <= i < |rest| ==> !Ends(rest[i])
    ensures Scan(atoi, text, Cut(ns), |ns|, at, at) == Cut(ns + Values(hs))
    decreases |hs|
  {
    hide Cut, Scan, HexValue, IsHex, Values, Decodes;
    if hs == [] {
      assert text[at..] == rest;
      assert forall i :: at <= i < |text| ==> text[i] == text[at..][i - at];
      ScanRest(atoi, text, Cut(ns), |ns|, at, at);
      assert Values(hs) == [] && ns + [] == ns;
    } else {
      Regroup("0x" + hs[0], [','], Open(hs[1..]), rest);
      var next := ReadField(atoi, text, at, ns, hs[0], ',', Open(hs[1..]) + rest);
      HeadValue(ns, hs);
      ScanOpen(atoi, text, next, ns + [HexValue(hs[0])], hs[1..], rest);
    }
  }

  /** A text that breaks off: the fields that were ended are read, and what follows the last comma is not.  The first
      character does not matter. */
  lemma BrokenOff(atoi: Reader, first: char, hs: seq<string>, rest: string)
    requires Decodes(atoi) && forall i :: 0 <= i < |hs| ==> Readable(hs[i])
    requires forall i :: 0 <= i < |rest| ==> !Ends(rest[i])
    ensures Parse(atoi, [first] + (Open(hs) + rest)) == Cut(Values(hs))
  {
    hide Scan, Open, Values;
    var text := [first] + (Open(hs) + rest);
    assert text[1..] == Open(hs) + rest;
    ScanOpen(atoi, text, 1, [], hs, rest);
    assert [] + Values(hs) == Values(hs);
    CutNone();
  }

  /** How many numbers the k-th field can tell apart. */
  function Width(k: nat): int {
    if k == 0 then 0x1_0000_0000 else if k <= 2 then 0x1_0000 else 0x100
  }

  lemma CutAlike(ns: seq<int>, ms: seq<int>)
    requires |ns| == |ms| && forall k :: 0 <= k < |ns| ==> 0 <= ns[k] < Width(0) && 0 <= ms[k] < Width(0)
    ensures Cut(ns) == Cut(ms) <==> forall k :: 0 <= k < |ns| && k < FIELDS ==> ns[k] % Width(k) == ms[k] % Width(k)
  {
    var v, w := Cut(ns), Cut(ms);
    if forall k :: 0 <= k < |ns| && k < FIELDS ==> ns[k] % Width(k) == ms[k] % Width(k) {
      assert forall i :: 0 <= i < 8 ==> v.data4[i] == w.data4[i];
      assert v.data4 == w.data4;
    }
    if v == w {
      forall k | 0 <= k < |ns| && k < FIELDS
        ensures ns[k] % Width(k) == ms[k] % Width(k)
      {
        assert k >= 3 ==> v.data4[k - 3] == w.data4[k - 3];
      }
    }
  }

  /** Two texts with as many fields read alike exactly when the first eleven agree, each as far as it is wide: a field
      too wide is cut, not refused, and a twelfth is ignored. */
  lemma AlikeIff(atoi: Reader, hs: seq<string>, gs: seq<string>)
    requires Decodes(atoi) && hs != [] && |gs| == |hs|
    requires forall i :: 0 <= i < |hs| ==> Readable(hs[i]) && Readable(gs[i])
    ensures Parse(atoi, Text(hs)) == Parse(atoi, Text(gs)) <==>
      forall k :: 0 <= k < |hs| && k < FIELDS ==> HexValue(hs[k]) % Width(k) == HexValue(gs[k]) % Width(k)
  {
    hide Parse, Text, IsHex, HexValue, Cut, Width;
    ParseText(atoi, hs, []);
    ParseText(atoi, gs, []);
    assert Text(hs) + [] == Text(hs) && Text(gs) + [] == Text(gs);
    forall i | 0 <= i < |hs|
      ensures 0 <= HexValue(hs[i]) < Width(0) && 0 <= HexValue(gs[i]) < Width(0)
    {
      HexPositive(hs[i]);
      HexPositive(gs[i]);
      WidthOf();
    }
    CutAlike(Values(hs), Values(gs));
  }

  lemma WidthOf()
    ensures Width(0) == 0x1_0000_0000
  {
  }

  lemma {:induction false} HexPositive(h: string)
    requires IsHex(h)
    ensures HexValue(h) >= 0
  {
    var n := |h| - 1;
    assert Digit(h[n]) >= 0;
    if n > 0 {
      assert forall i :: 0 <= i < n ==> h[..n][i] == h[i];
      HexPositive(h[..n]);
    }
  }

  /** Fields left out read as zero. */
  lemma MissingIsZero(atoi: Reader, hs: seq<string>)
    requires Decodes(atoi) && hs != [] && forall i :: 0 <= i < |hs| ==> Readable(hs[i])
    ensures Parse(atoi, Text(hs)) == Parse(atoi, Text(hs + ["0"]))
  {
    hide Parse, Text, Cut;
    var gs := hs + ["0"];
    assert Digit('0') == 0 && "0"[..0] == [] && HexValue("0") == 0;
    ParseText(atoi, hs, []);
    ParseText(atoi, gs, []);
    assert Text(hs) + [] == Text(hs) && Text(gs) + [] == Text(gs);
    assert Values(gs) == Values(hs) + [0];
    CutZero(Values(hs));
  }

  lemma CutZero(ns: seq<int>)
    ensures Cut(ns + [0]) == Cut(ns)
  {
    assert forall k: nat :: NumberAt(ns + [0], k) == NumberAt(ns, k);
    assert Cut(ns + [0]).data4 == Cut(ns).data4;
  }

  /** A field too wide is cut, not refused: different numbers can read the same. */
  lemma WideFieldIsCut(atoi: Reader, n: nat, m: nat)
    requires Decodes(atoi) && n < 0x1_0000_0000 && m < 0x1_0000
    ensures Parse(atoi, Text([Hex(m), Hex(n)])) == Parse(atoi, Text([Hex(m), Hex(m)])) <==> n % 0x1_0000 == m
  {
    ReadsTwo(atoi, m, n);
    ReadsTwo(atoi, m, m);
  }

  lemma ReadsTwo(atoi: Reader, m: nat, n: nat)
    requires Decodes(atoi) && n < 0x1_0000_0000 && m < 0x1_0000_0000
    ensures Parse(atoi, Text([Hex(m), Hex(n)])) == Value(m, n % 0x1_0000, 0, [0, 0, 0, 0, 0, 0, 0, 0])
  {
    hide Parse, Text, HexValue, IsHex, Cut, Decodes;
    HexDecodes(n);
    HexDecodes(m);
    var hs := [Hex(m), Hex(n)];
    ParseText(atoi, hs, []);
    assert Text(hs) + [] == Text(hs);
    assert Values(hs) == [m, n];
    CutTwo(m, n);
  }

  lemma CutTwo(m: int, n: int)
    ensures Cut([m, n]) == Value(m, n % 0x1_0000, 0, [0, 0, 0, 0, 0, 0, 0, 0])
  {
    assert Cut([m, n]).data4 == [0, 0, 0, 0, 0, 0, 0, 0];
  }
}
