// Strings of bytes as numbers, least significant byte first: loading three or
// four bytes of one, and putting one together from its bytes.
module ByteStrings {
  import opened Basics
  import opened Powers
  import opened BitStream

  function Load3(a: seq<uint8>, o: nat): nat
    requires o + 3 <= |a|
  {
    ByteValue(a[o]) + ByteValue(a[o + 1]) * 0x100 + ByteValue(a[o + 2]) * 0x1_0000
  }

  function Load4(a: seq<uint8>, o: nat): nat
    requires o + 4 <= |a|
  {
    ByteValue(a[o]) + ByteValue(a[o + 1]) * 0x100 + ByteValue(a[o + 2]) * 0x1_0000 + ByteValue(a[o + 3]) * 0x100_0000
  }

  // (uint8_t)x
  function Byte(x: nat): uint8 {
    x % 256
  }

  lemma HighNone(v: nat)
    ensures High(v, 0) == v
  {
  }

  lemma LowNone(v: nat)
    ensures Low(v, 0) == 0
  {
  }

  lemma LowAll(v: nat, n: nat)
    requires v < Pow2(n)
    ensures Low(v, n) == v
  {
    hide Pow2;
    DivisionIs(v, Pow2(n), 0, v);
  }

  lemma {:induction false} ValueFits(a: seq<uint8>)
    ensures Value(a) < Pow2(8 * |a|)
  {
    if a != [] {
      ValueFits(a[1..]);
      Pow2Eight(8 * (|a| - 1));
    }
  }

  lemma ValueFrom(a: seq<uint8>, o: nat)
    requires o < |a|
    ensures Value(a[o..]) == ByteValue(a[o]) + 256 * Value(a[o + 1..])
  {
    assert a[o..][1..] == a[o + 1..];
  }

  // Everything from byte o on.
  lemma FromByte(a: seq<uint8>, o: nat)
    requires o <= |a|
    ensures High(Value(a), 8 * o) == Value(a[o..])
  {
    hide Value;
    assert Pow2(0) == 1 && Stream(0, 0, a) == Value(a);
    StreamFrom(0, 0, a, o);
  }

  lemma LoadedLow(a: seq<uint8>, o: nat)
    ensures o + 3 <= |a| ==> Load3(a, o) == Low(High(Value(a), 8 * o), 24)
    ensures o + 4 <= |a| ==> Load4(a, o) == Low(High(Value(a), 8 * o), 32)
  {
    hide Value, ByteValue, Pow2;
    if o + 3 <= |a| {
      FromByte(a, o);
      ValueFrom(a, o);
      ValueFrom(a, o + 1);
      ValueFrom(a, o + 2);
      LargePowers();
      DivisionIs(Value(a[o..]), 0x100_0000, Value(a[o + 3..]), Load3(a, o));
      if o + 4 <= |a| {
        ValueFrom(a, o + 3);
        DivisionIs(Value(a[o..]), 0x1_0000_0000, Value(a[o + 4..]), Load4(a, o));
      }
    }
  }

  lemma ByteRoundTrip(x: nat)
    ensures ByteValue(Byte(x)) == Low(x, 8)
  {
    hide Pow2;
    Pow2Eight(0);
  }

  // Bytes that are each the right eight bits of a number put it together.
  lemma {:induction false} BytesOf(b: seq<uint8>, v: nat)
    requires forall j | 0 <= j < |b| :: ByteValue(b[j]) == Low(High(v, 8 * j), 8)
    ensures Value(b) == Low(v, 8 * |b|)
  {
    hide Pow2, Low, High, ByteValue;
    if b == [] {
      LowNone(v);
    } else {
      var w := High(v, 8);
      HighNone(v);
      forall j | 0 <= j < |b| - 1 ensures ByteValue(b[1..][j]) == Low(High(w, 8 * j), 8) {
        HighTwice(v, 8, 8 * j);
        assert ByteValue(b[j + 1]) == Low(High(v, 8 * (j + 1)), 8);
      }
      BytesOf(b[1..], w);
      LowSplits(v, 8, 8 * (|b| - 1));
      Pow2Eight(0);
    }
  }
}
