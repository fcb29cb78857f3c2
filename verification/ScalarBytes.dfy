// Scalars as strings of bytes, least significant first, and as limbs of 21
// bits: reading the limbs out of the bytes and writing the bytes back.
module ScalarBytes {
  import opened Basics
  import opened Powers
  import opened Packing
  import opened BitStream
  import opened ByteStrings
  import opened ScalarLimbs
  import opened ScalarReduce

  // The limbs of a 32-byte scalar: kBottom21Bits & (load(a + offset) >> shift),
  // the last of them not masked.
  function Limbs12(a: seq<uint8>): (s: seq<nat>)
    requires |a| == 32
    ensures |s| == 12
  {
    [ Low(Load3(a, 0), 21), Low(High(Load4(a, 2), 5), 21), Low(High(Load3(a, 5), 2), 21),
      Low(High(Load4(a, 7), 7), 21), Low(High(Load4(a, 10), 4), 21), Low(High(Load3(a, 13), 1), 21),
      Low(High(Load4(a, 15), 6), 21), Low(High(Load3(a, 18), 3), 21), Low(Load3(a, 21), 21),
      Low(High(Load4(a, 23), 5), 21), Low(High(Load3(a, 26), 2), 21), High(Load4(a, 28), 7) ]
  }

  // The limbs of a 64-byte scalar.
  function Limbs24(a: seq<uint8>): (s: seq<nat>)
    requires |a| == 64
    ensures |s| == 24
  {
    [ Low(Load3(a, 0), 21), Low(High(Load4(a, 2), 5), 21), Low(High(Load3(a, 5), 2), 21),
      Low(High(Load4(a, 7), 7), 21), Low(High(Load4(a, 10), 4), 21), Low(High(Load3(a, 13), 1), 21),
      Low(High(Load4(a, 15), 6), 21), Low(High(Load3(a, 18), 3), 21), Low(Load3(a, 21), 21),
      Low(High(Load4(a, 23), 5), 21), Low(High(Load3(a, 26), 2), 21), Low(High(Load4(a, 28), 7), 21),
      Low(High(Load4(a, 31), 4), 21), Low(High(Load3(a, 34), 1), 21), Low(High(Load4(a, 36), 6), 21),
      Low(High(Load3(a, 39), 3), 21), Low(Load3(a, 42), 21), Low(High(Load4(a, 44), 5), 21),
      Low(High(Load3(a, 47), 2), 21), Low(High(Load4(a, 49), 7), 21), Low(High(Load4(a, 52), 4), 21),
      Low(High(Load3(a, 55), 1), 21), Low(High(Load4(a, 57), 6), 21), High(Load4(a, 60), 3) ]
  }

  // The bytes of a scalar from its limbs. Where a byte straddles two limbs their
  // parts share no bits, and putting them together is adding them.
  function Bytes32(v: seq<nat>): (b: seq<uint8>)
    requires |v| == 12
    ensures |b| == 32
  {
    [ Byte(v[0]), Byte(High(v[0], 8)), Byte(High(v[0], 16) + v[1] * 32), Byte(High(v[1], 3)),
      Byte(High(v[1], 11)), Byte(High(v[1], 19) + v[2] * 4), Byte(High(v[2], 6)), Byte(High(v[2], 14) + v[3] * 128),
      Byte(High(v[3], 1)), Byte(High(v[3], 9)), Byte(High(v[3], 17) + v[4] * 16), Byte(High(v[4], 4)),
      Byte(High(v[4], 12)), Byte(High(v[4], 20) + v[5] * 2), Byte(High(v[5], 7)), Byte(High(v[5], 15) + v[6] * 64),
      Byte(High(v[6], 2)), Byte(High(v[6], 10)), Byte(High(v[6], 18) + v[7] * 8), Byte(High(v[7], 5)),
      Byte(High(v[7], 13)), Byte(v[8]), Byte(High(v[8], 8)), Byte(High(v[8], 16) + v[9] * 32),
      Byte(High(v[9], 3)), Byte(High(v[9], 11)), Byte(High(v[9], 19) + v[10] * 4), Byte(High(v[10], 6)),
      Byte(High(v[10], 14) + v[11] * 128), Byte(High(v[11], 1)), Byte(High(v[11], 9)), Byte(High(v[11], 17)) ]
  }

  // ----- the limbs are the digits of the number

  // n digits of 21 bits, the last one with all that is left.
  function Digits(v: nat, n: nat): (d: seq<nat>)
    requires 1 <= n
    ensures |d| == n
    decreases n
  {
    hide Low, High;
    if n == 1 then [v] else [Low(v, 21)] + Digits(High(v, 21), n - 1)
  }

  lemma {:induction false} DigitsSum(v: nat, n: nat)
    requires 1 <= n
    ensures LimbValue(Digits(v, n)) == v
    decreases n
  {
    hide Low, High, Pow2;
    if n > 1 {
      DigitsSum(High(v, 21), n - 1);
      assert Digits(v, n)[1..] == Digits(High(v, 21), n - 1);
      LowHigh(v, 21);
      LargePowers();
    }
  }

  lemma {:induction false} DigitAt(v: nat, n: nat, k: nat)
    requires k < n
    ensures Digits(v, n)[k] == if k < n - 1 then Low(High(v, 21 * k), 21) else High(v, 21 * k)
    decreases n
  {
    hide Pow2;
    if k == 0 {
      HighNone(v);
    } else {
      DigitAt(High(v, 21), n - 1, k - 1);
      HighTwice(v, 21, 21 * (k - 1));
    }
  }

  // A limb that starts at bit r of what was loaded from byte o.
  lemma LimbAt(a: seq<uint8>, o: nat, n: nat, r: nat, k: nat)
    requires (n == 3 || n == 4) && o + n <= |a| && 8 * o + r == 21 * k && r + 21 <= 8 * n
    ensures var x := if n == 3 then Load3(a, o) else Load4(a, o);
      && Low(High(x, r), 21) == Low(High(Value(a), 21 * k), 21)
      && (r == 0 ==> High(x, r) == x)
  {
    hide Value, Pow2, Load3, Load4, Low, High;
    LoadedLow(a, o);
    var v := High(Value(a), 8 * o);
    LowOfLow(v, r, 8 * n);
    HighTwice(Value(a), 8 * o, r);
    LowOfLow(High(v, r), 21, 8 * n - r);
    if r == 0 {
      HighNone(if n == 3 then Load3(a, o) else Load4(a, o));
    }
  }

  // The last limb takes all the bits that are left.
  lemma LastLimb(a: seq<uint8>, o: nat, r: nat, k: nat)
    requires o + 4 == |a| && 8 * o + r == 21 * k
    ensures High(Load4(a, o), r) == High(Value(a), 21 * k)
  {
    hide Value, Pow2, Load3, Load4, Low, High;
    LoadedLow(a, o);
    FromByte(a, o);
    ValueFits(a[o..]);
    LowAll(Value(a[o..]), 32);
    HighTwice(Value(a), 8 * o, r);
  }

  lemma Limbs12AreDigits(a: seq<uint8>)
    requires |a| == 32
    ensures Limbs12(a) == Digits(Value(a), 12) && LimbValue(Limbs12(a)) == Value(a)
  {
    hide Value, Pow2, Load3, Load4, Low, High, Digits;
    LimbAt(a, 0, 3, 0, 0); LimbAt(a, 2, 4, 5, 1); LimbAt(a, 5, 3, 2, 2);
    LimbAt(a, 7, 4, 7, 3); LimbAt(a, 10, 4, 4, 4); LimbAt(a, 13, 3, 1, 5);
    LimbAt(a, 15, 4, 6, 6); LimbAt(a, 18, 3, 3, 7); LimbAt(a, 21, 3, 0, 8);
    LimbAt(a, 23, 4, 5, 9); LimbAt(a, 26, 3, 2, 10); LastLimb(a, 28, 7, 11);
    forall k | 0 <= k < 12 ensures Limbs12(a)[k] == Digits(Value(a), 12)[k] {
      DigitAt(Value(a), 12, k);
    }
    DigitsSum(Value(a), 12);
  }

  lemma Limbs24AreDigits(a: seq<uint8>)
    requires |a| == 64
    ensures Limbs24(a) == Digits(Value(a), 24) && LimbValue(Limbs24(a)) == Value(a)
  {
    hide Value, Pow2, Load3, Load4, Low, High, Digits;
    LimbAt(a, 0, 3, 0, 0); LimbAt(a, 2, 4, 5, 1); LimbAt(a, 5, 3, 2, 2);
    LimbAt(a, 7, 4, 7, 3); LimbAt(a, 10, 4, 4, 4); LimbAt(a, 13, 3, 1, 5);
    LimbAt(a, 15, 4, 6, 6); LimbAt(a, 18, 3, 3, 7); LimbAt(a, 21, 3, 0, 8);
    LimbAt(a, 23, 4, 5, 9); LimbAt(a, 26, 3, 2, 10); LimbAt(a, 28, 4, 7, 11);
    LimbAt(a, 31, 4, 4, 12); LimbAt(a, 34, 3, 1, 13); LimbAt(a, 36, 4, 6, 14);
    LimbAt(a, 39, 3, 3, 15); LimbAt(a, 42, 3, 0, 16); LimbAt(a, 44, 4, 5, 17);
    LimbAt(a, 47, 3, 2, 18); LimbAt(a, 49, 4, 7, 19); LimbAt(a, 52, 4, 4, 20);
    LimbAt(a, 55, 3, 1, 21); LimbAt(a, 57, 4, 6, 22); LastLimb(a, 60, 3, 23);
    forall k | 0 <= k < 24 ensures Limbs24(a)[k] == Digits(Value(a), 24)[k] {
      DigitAt(Value(a), 24, k);
    }
    DigitsSum(Value(a), 24);
  }

  // ----- writing the bytes

  // The limbs from k on are what is left of the number after 21 * k bits.
  lemma {:induction false} HighLimbs(v: seq<nat>, k: nat)
    requires k <= |v| && forall j | 0 <= j < k :: v[j] < 0x20_0000
    ensures 0 <= LimbValue(v) && 0 <= LimbValue(v[k..]) && High(LimbValue(v), 21 * k) == LimbValue(v[k..])
  {
    hide Pow2, Low, High;
    LimbsNonnegative(v);
    if k == 0 {
      HighNone(LimbValue(v));
      assert v[0..] == v;
    } else {
      HighLimbs(v[1..], k - 1);
      assert v[1..][k - 1..] == v[k..];
      LargePowers();
      AboveDigit(v[0], LimbValue(v[1..]), 21);
      HighTwice(LimbValue(v), 21, 21 * (k - 1));
    }
  }

  lemma {:induction false} LimbsNonnegative(v: seq<nat>)
    ensures 0 <= LimbValue(v)
  {
    if v != [] {
      LimbsNonnegative(v[1..]);
    }
  }

  // Bits from bit r of limb k on, with those of the next limb `m` times as high.
  function LimbBits(v: seq<nat>, k: nat, r: nat, m: nat): nat
    requires k < |v| == 12 && r < 21
  {
    if r == 0 then v[k]
    else if r <= 13 || k == 11 then High(v[k], r)
    else High(v[k], r) + v[k + 1] * m
  }

  ghost predicate Packable(v: seq<nat>) {
    |v| == 12 && forall k | 0 <= k < 11 :: v[k] < 0x20_0000
  }

  lemma ByteOfValue(v: seq<nat>, j: nat, k: nat, r: nat)
    requires Packable(v) && k < 12 && 8 * j == 21 * k + r && r < 21
    ensures 0 <= LimbValue(v) && Low(High(LimbValue(v), 8 * j), 8) == Low(LimbBits(v, k, r, Pow2(21 - r)), 8)
  {
    hide Pow2, Low, High, LimbValue;
    HighLimbs(v, k);
    LimbFirst(v[k..]);
    assert v[k..][1..] == v[k + 1..];
    LimbsNonnegative(v);
    LimbsNonnegative(v[k + 1..]);
    HighTwice(LimbValue(v), 21 * k, r);
    HighNone(v[k]);
    LargePowers();
    if k == 11 {
      NoLimbs(v[12..]);
    } else if r <= 13 {
      ByteInside(v[k], LimbValue(v[k + 1..]), r, 21);
    } else {
      LimbFirst(v[k + 1..]);
      assert v[k + 1..][1..] == v[k + 2..];
      LimbsNonnegative(v[k + 2..]);
      ByteAcross(v[k], v[k + 1], LimbValue(v[k + 2..]), r, 21, 21);
    }
  }

  lemma NoLimbs(v: seq<nat>)
    requires v == []
    ensures LimbValue(v) == 0
  {
  }

  lemma ByteAt(v: seq<nat>, j: nat, k: nat, r: nat, m: nat)
    requires Packable(v) && k < 12 && 8 * j == 21 * k + r && r < 21 && (r > 13 ==> m == Pow2(21 - r))
    ensures 0 <= LimbValue(v) && ByteValue(Byte(LimbBits(v, k, r, m))) == Low(High(LimbValue(v), 8 * j), 8)
  {
    hide Pow2, Low, High, LimbValue, Byte, ByteValue;
    ByteOfValue(v, j, k, r);
    ByteRoundTrip(LimbBits(v, k, r, m));
  }

  lemma Bytes0(v: seq<nat>)
    requires Packable(v)
    ensures 0 <= LimbValue(v)
    ensures forall j | 0 <= j < 8 :: ByteValue(Bytes32(v)[j]) == Low(High(LimbValue(v), 8 * j), 8)
  {
    hide Pow2, Low, High, LimbValue, Byte, ByteValue;
    SmallPowers();
    ByteAt(v, 0, 0, 0, 0); ByteAt(v, 1, 0, 8, 0); ByteAt(v, 2, 0, 16, 32); ByteAt(v, 3, 1, 3, 0);
    ByteAt(v, 4, 1, 11, 0); ByteAt(v, 5, 1, 19, 4); ByteAt(v, 6, 2, 6, 0); ByteAt(v, 7, 2, 14, 128);
  }

  lemma Bytes8(v: seq<nat>)
    requires Packable(v)
    ensures 0 <= LimbValue(v)
    ensures forall j | 8 <= j < 16 :: ByteValue(Bytes32(v)[j]) == Low(High(LimbValue(v), 8 * j), 8)
  {
    hide Pow2, Low, High, LimbValue, Byte, ByteValue;
    SmallPowers();
    ByteAt(v, 8, 3, 1, 0); ByteAt(v, 9, 3, 9, 0); ByteAt(v, 10, 3, 17, 16); ByteAt(v, 11, 4, 4, 0);
    ByteAt(v, 12, 4, 12, 0); ByteAt(v, 13, 4, 20, 2); ByteAt(v, 14, 5, 7, 0); ByteAt(v, 15, 5, 15, 64);
  }

  lemma Bytes16(v: seq<nat>)
    requires Packable(v)
    ensures 0 <= LimbValue(v)
    ensures forall j | 16 <= j < 24 :: ByteValue(Bytes32(v)[j]) == Low(High(LimbValue(v), 8 * j), 8)
  {
    hide Pow2, Low, High, LimbValue, Byte, ByteValue;
    SmallPowers();
    ByteAt(v, 16, 6, 2, 0); ByteAt(v, 17, 6, 10, 0); ByteAt(v, 18, 6, 18, 8); ByteAt(v, 19, 7, 5, 0);
    ByteAt(v, 20, 7, 13, 0); ByteAt(v, 21, 8, 0, 0); ByteAt(v, 22, 8, 8, 0); ByteAt(v, 23, 8, 16, 32);
  }

  lemma Bytes24(v: seq<nat>)
    requires Packable(v)
    ensures 0 <= LimbValue(v)
    ensures forall j | 24 <= j < 32 :: ByteValue(Bytes32(v)[j]) == Low(High(LimbValue(v), 8 * j), 8)
  {
    hide Pow2, Low, High, LimbValue, Byte, ByteValue;
    SmallPowers();
    ByteAt(v, 24, 9, 3, 0); ByteAt(v, 25, 9, 11, 0); ByteAt(v, 26, 9, 19, 4); ByteAt(v, 27, 10, 6, 0);
    ByteAt(v, 28, 10, 14, 128); ByteAt(v, 29, 11, 1, 0); ByteAt(v, 30, 11, 9, 0); ByteAt(v, 31, 11, 17, 16);
  }

  // The bytes written are the number that the limbs amount to.
  lemma Bytes32Value(v: seq<nat>)
    requires Packable(v) && LimbValue(v) < Pow2(256)
    ensures Value(Bytes32(v)) == LimbValue(v)
  {
    hide Pow2, Low, High, LimbValue, Bytes32, ByteValue;
    Bytes0(v);
    Bytes8(v);
    Bytes16(v);
    Bytes24(v);
    BytesOf(Bytes32(v), LimbValue(v));
    LowAll(LimbValue(v), 256);
  }
}
