// The recursion and the period mask, bit by bit: which bits of which words
// each bit of the next word is the exclusive or of.
module SfmtBits {
  import opened SfmtRecursion
  import opened SfmtPeriod

  // Whether the bits of x meet those of w.
  ghost predicate Meets(x: bv32, w: bv32) {
    And(x, w) != 0
  }

  // Bit n of a 128-bit word: none beyond either end.
  ghost predicate BitOf(x: W128, n: int) {
    0 <= n < 128 && Meets(WordOf(x, n / 32), Bit(n % 32))
  }

  // The places that SFMT_MSK1 to SFMT_MSK4 clear, of those that a shift by 11
  // leaves in a lane.
  const CLEARED: set<int> := {4, 32 + 7, 32 + 10, 32 + 12, 32 + 13, 32 + 16, 64 + 16, 64 + 18, 96 + 0, 96 + 3}

  // Exclusive or of truth values.
  ghost predicate Odd(p: bool, q: bool) {
    p != q
  }

  // ----- one lane

  lemma LowBitTable()
    ensures Bit(0) == 0x1 && Bit(1) == 0x2 && Bit(2) == 0x4 && Bit(3) == 0x8 && Bit(4) == 0x10 && Bit(5) == 0x20
    ensures Bit(6) == 0x40 && Bit(7) == 0x80 && Bit(8) == 0x100 && Bit(9) == 0x200 && Bit(10) == 0x400
    ensures Bit(11) == 0x800 && Bit(12) == 0x1000 && Bit(13) == 0x2000 && Bit(14) == 0x4000 && Bit(15) == 0x8000
  {
    assert Bit(4) == 0x10;
    assert Bit(8) == 0x100;
    assert Bit(12) == 0x1000;
  }

  lemma BitTable()
    ensures Bit(0) == 0x1 && Bit(1) == 0x2 && Bit(2) == 0x4 && Bit(3) == 0x8 && Bit(4) == 0x10 && Bit(5) == 0x20
    ensures Bit(6) == 0x40 && Bit(7) == 0x80 && Bit(8) == 0x100 && Bit(9) == 0x200 && Bit(10) == 0x400
    ensures Bit(11) == 0x800 && Bit(12) == 0x1000 && Bit(13) == 0x2000 && Bit(14) == 0x4000 && Bit(15) == 0x8000
    ensures Bit(16) == 0x1_0000 && Bit(17) == 0x2_0000 && Bit(18) == 0x4_0000 && Bit(19) == 0x8_0000
    ensures Bit(20) == 0x10_0000 && Bit(21) == 0x20_0000 && Bit(22) == 0x40_0000 && Bit(23) == 0x80_0000
    ensures Bit(24) == 0x100_0000 && Bit(25) == 0x200_0000 && Bit(26) == 0x400_0000 && Bit(27) == 0x800_0000
    ensures Bit(28) == 0x1000_0000 && Bit(29) == 0x2000_0000 && Bit(30) == 0x4000_0000 && Bit(31) == 0x8000_0000
  {
    LowBitTable();
    assert Bit(20) == 0x10_0000;
    assert Bit(24) == 0x100_0000;
    assert Bit(28) == 0x1000_0000;
  }

  ghost predicate PlaceOf(k: nat, w: bv32) {
    || (k == 0 && w == 0x1) || (k == 1 && w == 0x2) || (k == 2 && w == 0x4)
    || (k == 3 && w == 0x8) || (k == 4 && w == 0x10) || (k == 5 && w == 0x20)
    || (k == 6 && w == 0x40) || (k == 7 && w == 0x80) || (k == 8 && w == 0x100)
    || (k == 9 && w == 0x200) || (k == 10 && w == 0x400) || (k == 11 && w == 0x800)
    || (k == 12 && w == 0x1000) || (k == 13 && w == 0x2000) || (k == 14 && w == 0x4000)
    || (k == 15 && w == 0x8000) || (k == 16 && w == 0x1_0000) || (k == 17 && w == 0x2_0000)
    || (k == 18 && w == 0x4_0000) || (k == 19 && w == 0x8_0000) || (k == 20 && w == 0x10_0000)
    || (k == 21 && w == 0x20_0000) || (k == 22 && w == 0x40_0000) || (k == 23 && w == 0x80_0000)
    || (k == 24 && w == 0x100_0000) || (k == 25 && w == 0x200_0000) || (k == 26 && w == 0x400_0000)
    || (k == 27 && w == 0x800_0000) || (k == 28 && w == 0x1000_0000) || (k == 29 && w == 0x2000_0000)
    || (k == 30 && w == 0x4000_0000) || (k == 31 && w == 0x8000_0000)
  }

  lemma EachPlace(k: nat)
    requires k < 32
    ensures PlaceOf(k, Bit(k))
  {
    hide Bit;
    BitTable();
    if k == 0 {} else if k == 1 {} else if k == 2 {} else if k == 3 {} else if k == 4 {} else if k == 5 {}
    else if k == 6 {} else if k == 7 {} else if k == 8 {} else if k == 9 {} else if k == 10 {} else if k == 11 {}
    else if k == 12 {} else if k == 13 {} else if k == 14 {} else if k == 15 {} else if k == 16 {} else if k == 17 {}
    else if k == 18 {} else if k == 19 {} else if k == 20 {} else if k == 21 {} else if k == 22 {} else if k == 23 {}
    else if k == 24 {} else if k == 25 {} else if k == 26 {} else if k == 27 {} else if k == 28 {} else if k == 29 {}
    else if k == 30 {} else {}
  }

  // b >> 11: bit k is bit k + 11, and the top 11 are none.
  lemma RightBit(b: bv32, k: nat)
    requires k < 32
    ensures Meets(Right11(b), Bit(k)) <==> k + 11 < 32 && Meets(b, Bit(k + 11))
  {
    hide Bit;
    BitTable();
    EachPlace(k);
  }

  // d << 18: bit k is bit k - 18, and the low 18 are none.
  lemma LeftBit(d: bv32, k: nat)
    requires k < 32
    ensures Meets(Left18(d), Bit(k)) <==> 18 <= k && Meets(d, Bit(k - 18))
  {
    hide Bit;
    BitTable();
    EachPlace(k);
  }

  // A lane one byte up, with the byte that comes in from the lane below.
  function ByteUp(below: bv32, x: bv32): bv32 {
    (x << 8) | (below >> 24)
  }

  function ByteDown(x: bv32, above: bv32): bv32 {
    (x >> 8) | (above << 24)
  }

  lemma ByteUpBit(below: bv32, x: bv32, k: nat)
    requires k < 32
    ensures Meets(ByteUp(below, x), Bit(k)) <==> if 8 <= k then Meets(x, Bit(k - 8)) else Meets(below, Bit(k + 24))
  {
    hide Bit;
    BitTable();
    EachPlace(k);
  }

  lemma ByteDownBit(x: bv32, above: bv32, k: nat)
    requires k < 32
    ensures Meets(ByteDown(x, above), Bit(k)) <==> if k < 24 then Meets(x, Bit(k + 8)) else Meets(above, Bit(k - 24))
  {
    hide Bit;
    BitTable();
    EachPlace(k);
  }

  lemma BitOrNone(x: bv32, k: nat)
    requires k < 32
    ensures And(x, Bit(k)) == 0 || And(x, Bit(k)) == Bit(k)
  {
    hide Bit;
    EachPlace(k);
  }

  lemma XorDistributes(x: bv32, y: bv32, w: bv32)
    ensures And(Xor(x, y), w) == Xor(And(x, w), And(y, w))
  {
  }

  lemma AndDistributes(x: bv32, y: bv32, w: bv32)
    ensures And(And(x, y), w) == And(And(x, w), And(y, w))
  {
  }

  lemma NoneOrBoth(p: bv32, q: bv32, w: bv32)
    requires (p == 0 || p == w) && (q == 0 || q == w)
    ensures Xor(p, q) != 0 <==> Odd(p != 0, q != 0)
    ensures And(p, q) != 0 <==> p != 0 && q != 0
  {
  }

  lemma XorMeets(x: bv32, y: bv32, k: nat)
    requires k < 32
    ensures Meets(Xor(x, y), Bit(k)) <==> Odd(Meets(x, Bit(k)), Meets(y, Bit(k)))
    ensures Meets(And(x, y), Bit(k)) <==> Meets(x, Bit(k)) && Meets(y, Bit(k))
  {
    hide Bit, Xor, And, Odd;
    var w := Bit(k);
    BitOrNone(x, k);
    BitOrNone(y, k);
    XorDistributes(x, y, w);
    AndDistributes(x, y, w);
    NoneOrBoth(And(x, w), And(y, w), w);
  }

  // ----- the 128-bit shifts

  lemma UpLanes(x: W128)
    ensures Lshift128(x) == W128(ByteUp(0, x.u0), ByteUp(x.u0, x.u1), ByteUp(x.u1, x.u2), ByteUp(x.u2, x.u3))
  {
    UpLow(x.u0, x.u1);
    UpHigh(x.u0, x.u1, x.u2, x.u3);
  }

  lemma UpLow(u0: bv32, u1: bv32)
    ensures LowHalf(Up(Pair(u1, u0))) == ByteUp(0, u0) && HighHalf(Up(Pair(u1, u0))) == ByteUp(u0, u1)
  {
  }

  lemma UpHigh(u0: bv32, u1: bv32, u2: bv32, u3: bv32)
    ensures LowHalf(UpFrom(Pair(u1, u0), Pair(u3, u2))) == ByteUp(u1, u2)
    ensures HighHalf(UpFrom(Pair(u1, u0), Pair(u3, u2))) == ByteUp(u2, u3)
  {
  }

  lemma DownLanes(x: W128)
    ensures Rshift128(x) ==
      W128(ByteDown(x.u0, x.u1), ByteDown(x.u1, x.u2), ByteDown(x.u2, x.u3), ByteDown(x.u3, 0))
  {
    DownHigh(x.u2, x.u3);
    DownLow(x.u0, x.u1, x.u2, x.u3);
  }

  lemma DownHigh(u2: bv32, u3: bv32)
    ensures LowHalf(Down(Pair(u3, u2))) == ByteDown(u2, u3) && HighHalf(Down(Pair(u3, u2))) == ByteDown(u3, 0)
  {
  }

  lemma DownLow(u0: bv32, u1: bv32, u2: bv32, u3: bv32)
    ensures LowHalf(DownFrom(Pair(u3, u2), Pair(u1, u0))) == ByteDown(u0, u1)
    ensures HighHalf(DownFrom(Pair(u3, u2), Pair(u1, u0))) == ByteDown(u1, u2)
  {
  }

  lemma NoBits(w: bv32)
    ensures !Meets(0, w)
  {
  }

  lemma BitIn(x: W128, i: nat, k: nat)
    requires i < 4 && k < 32
    ensures BitOf(x, 32 * i + k) <==> Meets(WordOf(x, i), Bit(k))
  {
    assert (32 * i + k) / 32 == i && (32 * i + k) % 32 == k;
  }

  lemma BitOutside(x: W128, n: int)
    requires n < 0 || 128 <= n
    ensures !BitOf(x, n)
  {
  }

  // The whole word a byte up: bit n is bit n - 8.
  lemma UpBit(x: W128, i: nat, k: nat)
    requires i < 4 && k < 32
    ensures Meets(WordOf(Lshift128(x), i), Bit(k)) <==> BitOf(x, 32 * i + k - 8)
  {
    hide Bit, Meets, Lshift128, ByteUp, BitOf;
    UpLanes(x);
    ByteUpBit(if i == 0 then 0 else WordOf(x, i - 1), WordOf(x, i), k);
    if 8 <= k {
      BitIn(x, i, k - 8);
    } else if i == 0 {
      NoBits(Bit(k + 24));
      BitOutside(x, k - 8);
    } else {
      BitIn(x, i - 1, k + 24);
    }
  }

  lemma DownBit(x: W128, i: nat, k: nat)
    requires i < 4 && k < 32
    ensures Meets(WordOf(Rshift128(x), i), Bit(k)) <==> BitOf(x, 32 * i + k + 8)
  {
    hide Bit, Meets, Rshift128, ByteDown, BitOf;
    DownLanes(x);
    ByteDownBit(WordOf(x, i), if i == 3 then 0 else WordOf(x, i + 1), k);
    if k < 24 {
      BitIn(x, i, k + 8);
    } else if i == 3 {
      NoBits(Bit(k - 24));
      BitOutside(x, 32 * i + k + 8);
    } else {
      BitIn(x, i + 1, k - 24);
    }
  }

  // ----- the masks

  function Mask(i: nat): bv32
    requires i < 4
  {
    if i == 0 then MSK1 else if i == 1 then MSK2 else if i == 2 then MSK3 else MSK4
  }

  lemma MaskBit(i: nat, k: nat)
    requires i < 4 && k < 21
    ensures Meets(Mask(i), Bit(k)) <==> 32 * i + k !in CLEARED
  {
    hide Bit;
    EachPlace(k);
  }

  // ----- the recursion

  // Bit n of the next word.
  ghost predicate NextBitOf(a: W128, b: W128, c: W128, d: W128, n: nat) {
    Odd(Odd(Odd(Odd(
      BitOf(a, n),
      BitOf(a, n - 8)),
      n % 32 < 21 && n !in CLEARED && BitOf(b, n + 11)),
      BitOf(c, n + 8)),
      18 <= n % 32 && BitOf(d, n - 18))
  }

  lemma WordBit(a: bv32, x: bv32, b: bv32, mask: bv32, y: bv32, d: bv32, k: nat)
    requires k < 32
    ensures Meets(RecursionWord(a, x, b, mask, y, d), Bit(k)) <==>
      Odd(Odd(Odd(Odd(Meets(a, Bit(k)), Meets(x, Bit(k))),
        k < 21 && Meets(b, Bit(k + 11)) && Meets(mask, Bit(k))), Meets(y, Bit(k))),
        18 <= k && Meets(d, Bit(k - 18)))
  {
    hide Bit, Meets, Xor, And, Right11, Left18;
    RightBit(b, k);
    LeftBit(d, k);
    var m := And(Right11(b), mask);
    XorMeets(Right11(b), mask, k);
    XorMeets(a, x, k);
    XorMeets(Xor(a, x), m, k);
    XorMeets(Xor(Xor(a, x), m), y, k);
    XorMeets(Xor(Xor(Xor(a, x), m), y), Left18(d), k);
  }

  lemma LaneOf(a: W128, b: W128, c: W128, d: W128, i: nat)
    requires i < 4
    ensures WordOf(Recursion(a, b, c, d), i) == RecursionWord(WordOf(a, i), WordOf(Lshift128(a), i), WordOf(b, i),
                                                              Mask(i), WordOf(Rshift128(c), i), WordOf(d, i))
  {
    hide Lshift128, Rshift128, RecursionWord;
  }

  lemma LaneBit(a: W128, b: W128, c: W128, d: W128, i: nat, k: nat)
    requires i < 4 && k < 32
    ensures Meets(WordOf(Recursion(a, b, c, d), i), Bit(k)) <==>
      Odd(Odd(Odd(Odd(
        BitOf(a, 32 * i + k),
        BitOf(a, 32 * i + k - 8)),
        k < 21 && 32 * i + k !in CLEARED && BitOf(b, 32 * i + k + 11)),
        BitOf(c, 32 * i + k + 8)),
        18 <= k && BitOf(d, 32 * i + k - 18))
  {
    hide Bit, Meets, Lshift128, Rshift128, RecursionWord, Recursion, BitOf, Odd, WordOf, Mask, CLEARED;
    LaneOf(a, b, c, d, i);
    UpBit(a, i, k);
    DownBit(c, i, k);
    WordBit(WordOf(a, i), WordOf(Lshift128(a), i), WordOf(b, i), Mask(i), WordOf(Rshift128(c), i), WordOf(d, i), k);
    BitIn(a, i, k);
    if k < 21 {
      MaskBit(i, k);
      BitIn(b, i, k + 11);
    }
    if 18 <= k {
      BitIn(d, i, k - 18);
    }
  }

  // Every bit of the next word, from bits of the four words it is made of.
  lemma RecursionBit(a: W128, b: W128, c: W128, d: W128, n: nat)
    requires n < 128
    ensures BitOf(Recursion(a, b, c, d), n) <==> NextBitOf(a, b, c, d, n)
  {
    hide Bit, Meets, Recursion, Odd, WordOf, CLEARED;
    LaneBit(a, b, c, d, n / 32, n % 32);
    assert n == 32 * (n / 32) + n % 32;
  }

  // ----- the period mask

  // The bits of the fourth word whose parity counts, and of the first only bit 0.
  const PERIOD_BITS: seq<nat> := [2, 7, 9, 10, 13, 14, 15, 16, 19, 22, 23, 24, 25, 28]

  // Whether x has an odd number of the first n of them.
  ghost predicate OddTo(x: bv32, n: nat)
    requires n <= 14
  {
    n > 0 && Odd(OddTo(x, n - 1), Meets(x, Bit(PERIOD_BITS[n - 1])))
  }

  function MaskTo(n: nat): bv32
    requires n <= 14
  {
    if n == 0 then 0 else Xor(MaskTo(n - 1), Bit(PERIOD_BITS[n - 1]))
  }

  lemma OddOfJoin(x: bv32, y: bv32)
    ensures OddOnes(Xor(x, y)) == Odd(OddOnes(x), OddOnes(y))
  {
    hide Folded, OddOnes, Xor;
    FoldedIsParity(x);
    FoldedIsParity(y);
    FoldedIsParity(Xor(x, y));
    FoldedLinear(x, y);
    FoldedBit(x);
    FoldedBit(y);
    XorOfBits(Folded(x), Folded(y));
  }

  lemma XorOfBits(p: bv32, q: bv32)
    requires (p == 0 || p == 1) && (q == 0 || q == 1)
    ensures Xor(p, q) == 1 <==> Odd(p == 1, q == 1)
  {
  }

  lemma OddOfBit(x: bv32, k: nat)
    requires k < 32
    ensures OddOnes(And(x, Bit(k))) == Meets(x, Bit(k))
  {
    hide Bit, Folded, OddOnes;
    BitOrNone(x, k);
    EachPlace(k);
    PlaceIsOne(k, Bit(k));
    FoldedOneBit(Bit(k));
    FoldedIsParity(And(x, Bit(k)));
    FoldedBit(0);
  }

  lemma PlaceIsOne(k: nat, w: bv32)
    requires PlaceOf(k, w)
    ensures OneBit(w)
  {
  }

  lemma AndJoins(x: bv32, m: bv32, w: bv32)
    ensures And(x, Xor(m, w)) == Xor(And(x, m), And(x, w))
  {
  }

  lemma NoOnes(x: bv32)
    ensures And(x, 0) == 0 && !OddOnes(0)
  {
  }

  lemma {:induction false} OddUnderMask(x: bv32, n: nat)
    requires n <= 14
    ensures OddOnes(And(x, MaskTo(n))) == OddTo(x, n)
  {
    hide Bit, OddOnes, And, Xor, Odd, Meets;
    if n == 0 {
      NoOnes(x);
    } else {
      var k := PERIOD_BITS[n - 1];
      OddUnderMask(x, n - 1);
      OddOfBit(x, k);
      AndJoins(x, MaskTo(n - 1), Bit(k));
      OddOfJoin(And(x, MaskTo(n - 1)), And(x, Bit(k)));
    }
  }

  lemma WholeMask()
    ensures MaskTo(14) == PARITY[3] && Bit(0) == PARITY[0]
  {
    hide Bit;
    BitTable();
    assert MaskTo(1) == 0x4 && MaskTo(2) == 0x84;
    assert MaskTo(3) == 0x284 && MaskTo(4) == 0x684;
    assert MaskTo(5) == 0x2684 && MaskTo(6) == 0x6684;
    assert MaskTo(7) == 0xe684 && MaskTo(8) == 0x1e684;
    assert MaskTo(9) == 0x9e684 && MaskTo(10) == 0x49e684;
    assert MaskTo(11) == 0xc9e684 && MaskTo(12) == 0x1c9e684;
    assert MaskTo(13) == 0x3c9e684 && MaskTo(14) == 0x13c9e684;
  }

  lemma SelectedBits(words: seq<bv32>)
    requires 4 <= |words|
    ensures Selected(words, PARITY, 4) == Xor(And(words[0], PARITY[0]), And(words[3], PARITY[3]))
  {
    hide And, Xor;
    assert Selected(words, PARITY, 1) == Xor(0, And(words[0], PARITY[0]));
    assert Selected(words, PARITY, 2) == Xor(Selected(words, PARITY, 1), And(words[1], 0));
    assert Selected(words, PARITY, 3) == Xor(Selected(words, PARITY, 2), And(words[2], 0));
    NoneJoined(words[1], And(words[0], PARITY[0]));
    NoneJoined(words[2], And(words[0], PARITY[0]));
  }

  lemma NoneJoined(x: bv32, y: bv32)
    ensures Xor(0, y) == y && Xor(y, And(x, 0)) == y
  {
  }

  // Which states have the full period, in terms of their bits.
  lemma CertifiedBits(words: seq<bv32>)
    requires 4 <= |words|
    ensures Certified(words, PARITY) <==> Odd(Meets(words[0], Bit(0)), OddTo(words[3], 14))
  {
    hide OddOnes, Bit, And, Xor, Odd, Meets, Selected, MaskTo, OddTo;
    SelectedBits(words);
    WholeMask();
    OddUnderMask(words[3], 14);
    OddOfBit(words[0], 0);
    OddOfJoin(And(words[0], PARITY[0]), And(words[3], PARITY[3]));
  }
}
