// Field elements as 32 bytes: fe_frombytes and fe_tobytes.
module FieldBytes {
  import opened Basics
  import opened Powers
  import opened Packing
  import opened BitStream
  import opened ByteStrings
  import opened Field

  // ----- writing limbs that are digits

  function Width(k: nat): nat {
    if k % 2 == 0 then 26 else 25
  }

  function Offset(k: nat): nat {
    (51 * k + 1) / 2
  }

  ghost predicate AreDigits(h: seq<nat>) {
    |h| == 10 && forall k | 0 <= k < 10 :: h[k] < Pow2(Width(k))
  }

  // The limbs from k on, in units of limb k.
  function FromLimb(h: seq<nat>, k: nat): nat
    requires |h| == 10
    decreases 10 - k
  {
    if k >= 10 then 0 else h[k] + Pow2(Width(k)) * FromLimb(h, k + 1)
  }

  lemma FromAll(h: seq<nat>)
    requires |h| == 10
    ensures FromLimb(h, 0) == FieldValue(h)
  {
    hide Pow2, FromLimb;
    FromTwo(h, 0);
    FromTwo(h, 2);
    FromTwo(h, 4);
    FromTwo(h, 6);
    FromTwo(h, 8);
    FromUnfold(h, 9);
  }

  lemma FromTwo(h: seq<nat>, k: nat)
    requires |h| == 10 && k < 9 && k % 2 == 0
    ensures FromLimb(h, k) == h[k] + 0x400_0000 * h[k + 1] + 0x8_0000_0000_0000 * FromLimb(h, k + 2)
  {
    hide Pow2, FromLimb;
    FromNext(h, k);
    FromNext(h, k + 1);
  }

  lemma FromNext(h: seq<nat>, k: nat)
    requires |h| == 10 && k < 10
    ensures FromLimb(h, k) == h[k] + (if k % 2 == 0 then 0x400_0000 else 0x200_0000) * FromLimb(h, k + 1)
  {
    hide Pow2;
    LargePowers();
  }

  lemma {:induction false} HighFrom(h: seq<nat>, k: nat)
    requires AreDigits(h) && k <= 10
    ensures High(FromLimb(h, 0), Offset(k)) == FromLimb(h, k)
  {
    hide Pow2, High, FromLimb;
    if k == 0 {
      HighNone(FromLimb(h, 0));
    } else {
      HighFrom(h, k - 1);
      FromUnfold(h, k - 1);
      AboveDigit(h[k - 1], FromLimb(h, k), Width(k - 1));
      HighTwice(FromLimb(h, 0), Offset(k - 1), Width(k - 1));
    }
  }

  lemma FromUnfold(h: seq<nat>, k: nat)
    requires |h| == 10 && k < 10
    ensures FromLimb(h, k) == h[k] + Pow2(Width(k)) * FromLimb(h, k + 1) && FromLimb(h, 10) == 0
  {
  }

  function Bytes32(h: seq<nat>): (b: seq<uint8>)
    requires |h| == 10
    ensures |b| == 32
  {
    [ Byte(h[0]), Byte(High(h[0], 8)), Byte(High(h[0], 16)), Byte(High(h[0], 24) + h[1] * 4),
      Byte(High(h[1], 6)), Byte(High(h[1], 14)), Byte(High(h[1], 22) + h[2] * 8), Byte(High(h[2], 5)),
      Byte(High(h[2], 13)), Byte(High(h[2], 21) + h[3] * 32), Byte(High(h[3], 3)), Byte(High(h[3], 11)),
      Byte(High(h[3], 19) + h[4] * 64), Byte(High(h[4], 2)), Byte(High(h[4], 10)), Byte(High(h[4], 18)),
      Byte(h[5]), Byte(High(h[5], 8)), Byte(High(h[5], 16)), Byte(High(h[5], 24) + h[6] * 2),
      Byte(High(h[6], 7)), Byte(High(h[6], 15)), Byte(High(h[6], 23) + h[7] * 8), Byte(High(h[7], 5)),
      Byte(High(h[7], 13)), Byte(High(h[7], 21) + h[8] * 16), Byte(High(h[8], 4)), Byte(High(h[8], 12)),
      Byte(High(h[8], 20) + h[9] * 64), Byte(High(h[9], 2)), Byte(High(h[9], 10)), Byte(High(h[9], 18)) ]
  }

  // Bits from bit r of limb k on, with those of the next limb `m` times as high.
  function LimbBits(h: seq<nat>, k: nat, r: nat, m: nat): nat
    requires k < |h| == 10
  {
    if r == 0 then h[k]
    else if r + 8 <= Width(k) || k == 9 then High(h[k], r)
    else High(h[k], r) + h[k + 1] * m
  }

  lemma ByteAt(h: seq<nat>, j: nat, k: nat, r: nat, m: nat)
    requires AreDigits(h) && k < 10 && 8 * j == Offset(k) + r && r < Width(k)
    requires r + 8 > Width(k) ==> m == Pow2(Width(k) - r) || k == 9
    ensures 0 <= FieldValue(h) && ByteValue(Byte(LimbBits(h, k, r, m))) == Low(High(FieldValue(h), 8 * j), 8)
  {
    hide Pow2, Low, High, FieldValue, Byte, ByteValue, FromLimb;
    FromAll(h);
    HighFrom(h, k);
    FromUnfold(h, k);
    HighTwice(FromLimb(h, 0), Offset(k), r);
    HighNone(h[k]);
    if k == 9 {
      assert Pow2(Width(9)) * FromLimb(h, 10) == 0;
    } else if r + 8 <= Width(k) {
      ByteInside(h[k], FromLimb(h, k + 1), r, Width(k));
    } else {
      FromUnfold(h, k + 1);
      ByteAcross(h[k], h[k + 1], FromLimb(h, k + 2), r, Width(k), Width(k + 1));
    }
    ByteRoundTrip(LimbBits(h, k, r, m));
  }

  lemma Bytes0(h: seq<nat>)
    requires AreDigits(h)
    ensures 0 <= FieldValue(h)
    ensures forall j | 0 <= j < 8 :: ByteValue(Bytes32(h)[j]) == Low(High(FieldValue(h), 8 * j), 8)
  {
    hide Pow2, Low, High, FieldValue, Byte, ByteValue, AreDigits;
    SmallPowers();
    ByteAt(h, 0, 0, 0, 0); ByteAt(h, 1, 0, 8, 0); ByteAt(h, 2, 0, 16, 0); ByteAt(h, 3, 0, 24, 4);
    ByteAt(h, 4, 1, 6, 0); ByteAt(h, 5, 1, 14, 0); ByteAt(h, 6, 1, 22, 8); ByteAt(h, 7, 2, 5, 0);
  }

  lemma Bytes8(h: seq<nat>)
    requires AreDigits(h)
    ensures 0 <= FieldValue(h)
    ensures forall j | 8 <= j < 16 :: ByteValue(Bytes32(h)[j]) == Low(High(FieldValue(h), 8 * j), 8)
  {
    hide Pow2, Low, High, FieldValue, Byte, ByteValue, AreDigits;
    SmallPowers();
    ByteAt(h, 8, 2, 13, 0); ByteAt(h, 9, 2, 21, 32); ByteAt(h, 10, 3, 3, 0); ByteAt(h, 11, 3, 11, 0);
    ByteAt(h, 12, 3, 19, 64); ByteAt(h, 13, 4, 2, 0); ByteAt(h, 14, 4, 10, 0); ByteAt(h, 15, 4, 18, 0);
  }

  lemma Bytes16(h: seq<nat>)
    requires AreDigits(h)
    ensures 0 <= FieldValue(h)
    ensures forall j | 16 <= j < 24 :: ByteValue(Bytes32(h)[j]) == Low(High(FieldValue(h), 8 * j), 8)
  {
    hide Pow2, Low, High, FieldValue, Byte, ByteValue, AreDigits;
    SmallPowers();
    ByteAt(h, 16, 5, 0, 0); ByteAt(h, 17, 5, 8, 0); ByteAt(h, 18, 5, 16, 0); ByteAt(h, 19, 5, 24, 2);
    ByteAt(h, 20, 6, 7, 0); ByteAt(h, 21, 6, 15, 0); ByteAt(h, 22, 6, 23, 8); ByteAt(h, 23, 7, 5, 0);
  }

  lemma Bytes24(h: seq<nat>)
    requires AreDigits(h)
    ensures 0 <= FieldValue(h)
    ensures forall j | 24 <= j < 32 :: ByteValue(Bytes32(h)[j]) == Low(High(FieldValue(h), 8 * j), 8)
  {
    hide Pow2, Low, High, FieldValue, Byte, ByteValue, AreDigits;
    SmallPowers();
    ByteAt(h, 24, 7, 13, 0); ByteAt(h, 25, 7, 21, 16); ByteAt(h, 26, 8, 4, 0); ByteAt(h, 27, 8, 12, 0);
    ByteAt(h, 28, 8, 20, 64); ByteAt(h, 29, 9, 2, 0); ByteAt(h, 30, 9, 10, 0); ByteAt(h, 31, 9, 18, 0);
  }

  lemma DigitsLength(h: seq<nat>)
    requires AreDigits(h)
    ensures |h| == 10
  {
  }

  // The bytes written are the number that the digits amount to.
  lemma Bytes32Value(h: seq<nat>)
    requires AreDigits(h) && FieldValue(h) < Pow2(256)
    ensures Value(Bytes32(h)) == FieldValue(h)
  {
    hide Pow2, Low, High, FieldValue, Bytes32, ByteValue, AreDigits;
    Bytes0(h);
    Bytes8(h);
    Bytes16(h);
    Bytes24(h);
    DigitsLength(h);
    BytesOf(Bytes32(h), FieldValue(h));
    LowAll(FieldValue(h), 256);
  }
}
