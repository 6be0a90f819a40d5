/** OsclUuid: the parsing constructor, with its cursors, and comparison. */
module OsclUuid {
  import opened UuidText

  // A C string, or the null pointer.
  datatype CString = NullString | CString(text: string)

  class Uuid {
    var data1: int
    var data2: int
    var data3: int
    const data4: array<int>

    ghost predicate Valid()
    {
      data4.Length == 8
    }

    ghost function View(): (v: Value)
      requires Valid()
      reads this, data4
      ensures |v.data4| == 8
    {
      Value(data1, data2, data3, data4[..])
    }

    constructor Zero()
      ensures Valid() && View() == ZERO && fresh(data4)
    {
      data1 := 0;
      data2 := 0;
      data3 := 0;
      data4 := new int[8](i => 0);
      new;
      assert data4[..] == ZERO.data4;
    }

    // The switch on the number of the field; b is the number decoded.
    method PutField(commaval: nat, n: int)
      requires Valid()
      modifies this, data4
      ensures Valid() && View() == Put(old(View()), commaval, n)
    {
      if commaval == 1 {
        data1 := n;
      } else if commaval == 2 {
        data2 := n % 0x1_0000;
      } else if commaval == 3 {
        data3 := n % 0x1_0000;
      } else if 4 <= commaval <= FIELDS {
        data4[commaval - 4] := n % 0x100;
      }
    }

    /** The parsing constructor.  Each read of text[eptr] is a read before the terminating zero. */
    constructor (atoi: Reader, s: CString)
      ensures Valid() && fresh(data4)
      ensures View() == if s == NullString then ZERO else Parse(atoi, s.text)
    {
      data1 := 0;
      data2 := 0;
      data3 := 0;
      data4 := new int[8](i => 0);
      new;
      assert data4[..] == ZERO.data4;
      if s == NullString {
        return;
      }
      var text := s.text;
      var uuidStrLen := |text|;
      if uuidStrLen != 0 {
        var commaval := 0;
        var sptr := 1;
        var eptr := sptr;
        var i := 0;
        while i < uuidStrLen - 1
          invariant 0 <= i <= uuidStrLen - 1 && eptr == i + 1 && 1 <= sptr <= eptr && commaval >= 0
          invariant Scan(atoi, text, View(), commaval, sptr, eptr) == Parse(atoi, text)
        {
          if text[eptr] != ',' && text[eptr] != ')' {
            eptr := eptr + 1;
          } else {
            sptr := sptr + 2;
            commaval := commaval + 1;
            PutField(commaval, atoi(text, sptr, eptr - sptr));
            if text[eptr] == ')' {
              return;
            }
            eptr := eptr + 1;
            sptr := eptr;
          }
          i := i + 1;
        }
      }
    }

    /** operator==: equal exactly when all fields are. */
    method Equals(src: Uuid) returns (r: bool)
      requires Valid() && src.Valid()
      ensures r <==> View() == src.View()
    {
      if data1 != src.data1 || data2 != src.data2 || data3 != src.data3 {
        return false;
      }
      var ii := 0;
      while ii < 8
        invariant 0 <= ii <= 8 && data4[..ii] == src.data4[..ii]
      {
        if data4[ii] != src.data4[ii] {
          assert data4[..][ii] != src.data4[..][ii];
          return false;
        }
        ii := ii + 1;
      }
      assert data4[..] == data4[..8] && src.data4[..] == src.data4[..8];
      return true;
    }
  }

  /** Parsing the text of a UUID gives an equal one. */
  method ParsedEquals(atoi: Reader, u: Uuid, hs: seq<string>) returns (w: Uuid, r: bool)
    requires Decodes(atoi) && u.Valid() && Fits(u.View())
    requires |hs| == FIELDS && forall i :: 0 <= i < FIELDS ==> IsHex(hs[i]) && HexValue(hs[i]) == Numbers(u.View())[i]
    ensures w.Valid() && w.View() == u.View() && r
  {
    RoundTrip(atoi, u.View(), hs);
    w := new Uuid(atoi, CString(Text(hs)));
    r := w.Equals(u);
  }
}
