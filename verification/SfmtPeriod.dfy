// period_certification: a state has the full period only if the parity of the
// bits that a mask selects from its first 128 is odd.
module SfmtPeriod {
  import opened SfmtRecursion

  function Down16(x: bv32): bv32 {
    x >> 16
  }

  function Down8(x: bv32): bv32 {
    x >> 8
  }

  function Down4(x: bv32): bv32 {
    x >> 4
  }

  function Down2(x: bv32): bv32 {
    x >> 2
  }

  function Down1(x: bv32): bv32 {
    x >> 1
  }

  // inner ^= inner >> i
  function Half16(x: bv32): bv32 {
    Xor(x, Down16(x))
  }

  function Half8(x: bv32): bv32 {
    Xor(x, Down8(x))
  }

  function Half4(x: bv32): bv32 {
    Xor(x, Down4(x))
  }

  function Half2(x: bv32): bv32 {
    Xor(x, Down2(x))
  }

  function Half1(x: bv32): bv32 {
    Xor(x, Down1(x))
  }

  // The folds of the loop over i = 16, 8, 4, 2, 1, and the lowest bit.
  function Folded(x: bv32): bv32 {
    Half1(Half2(Half4(Half8(Half16(x))))) & 1
  }

  // All ones but the lowest.
  function Rest(x: bv32): bv32 {
    x & (x - 1)
  }

  lemma RestSmaller(x: bv32)
    requires x != 0
    ensures Rest(x) < x
  {
  }

  // Whether the number of ones is odd, taking away the lowest one at a time.
  function OddOnes(x: bv32): bool {
    if x == 0 then false
    else
      RestSmaller(x);
      !OddOnes(Rest(x))
  }

  lemma XorExchange(x: bv32, y: bv32, z: bv32, w: bv32)
    ensures Xor(Xor(x, y), Xor(z, w)) == Xor(Xor(x, z), Xor(y, w))
  {
    hide Xor;
    XorLaws(Xor(x, y), z, w);
    XorLaws(x, y, z);
    XorLaws(x, z, y);
    XorLaws(Xor(x, z), y, w);
  }

  lemma Down16Linear(x: bv32, y: bv32)
    ensures Down16(Xor(x, y)) == Xor(Down16(x), Down16(y))
  {
  }

  lemma Half16Linear(x: bv32, y: bv32)
    ensures Half16(Xor(x, y)) == Xor(Half16(x), Half16(y))
  {
    hide Xor, Down16;
    Down16Linear(x, y);
    XorExchange(x, y, Down16(x), Down16(y));
  }

  lemma Down8Linear(x: bv32, y: bv32)
    ensures Down8(Xor(x, y)) == Xor(Down8(x), Down8(y))
  {
  }

  lemma Half8Linear(x: bv32, y: bv32)
    ensures Half8(Xor(x, y)) == Xor(Half8(x), Half8(y))
  {
    hide Xor, Down8;
    Down8Linear(x, y);
    XorExchange(x, y, Down8(x), Down8(y));
  }

  lemma Down4Linear(x: bv32, y: bv32)
    ensures Down4(Xor(x, y)) == Xor(Down4(x), Down4(y))
  {
  }

  lemma Half4Linear(x: bv32, y: bv32)
    ensures Half4(Xor(x, y)) == Xor(Half4(x), Half4(y))
  {
    hide Xor, Down4;
    Down4Linear(x, y);
    XorExchange(x, y, Down4(x), Down4(y));
  }

  lemma Down2Linear(x: bv32, y: bv32)
    ensures Down2(Xor(x, y)) == Xor(Down2(x), Down2(y))
  {
  }

  lemma Half2Linear(x: bv32, y: bv32)
    ensures Half2(Xor(x, y)) == Xor(Half2(x), Half2(y))
  {
    hide Xor, Down2;
    Down2Linear(x, y);
    XorExchange(x, y, Down2(x), Down2(y));
  }

  lemma Down1Linear(x: bv32, y: bv32)
    ensures Down1(Xor(x, y)) == Xor(Down1(x), Down1(y))
  {
  }

  lemma Half1Linear(x: bv32, y: bv32)
    ensures Half1(Xor(x, y)) == Xor(Half1(x), Half1(y))
  {
    hide Xor, Down1;
    Down1Linear(x, y);
    XorExchange(x, y, Down1(x), Down1(y));
  }

  lemma LowBits(x: bv32, y: bv32)
    ensures Xor(x, y) & 1 == Xor(x & 1, y & 1)
  {
  }

  lemma FoldedLinear(x: bv32, y: bv32)
    ensures Folded(Xor(x, y)) == Xor(Folded(x), Folded(y))
  {
    hide Half16, Half8, Half4, Half2, Half1, Xor;
    Half16Linear(x, y);
    Half8Linear(Half16(x), Half16(y));
    Half4Linear(Half8(Half16(x)), Half8(Half16(y)));
    Half2Linear(Half4(Half8(Half16(x))), Half4(Half8(Half16(y))));
    Half1Linear(Half2(Half4(Half8(Half16(x)))), Half2(Half4(Half8(Half16(y)))));
    LowBits(Half1(Half2(Half4(Half8(Half16(x))))), Half1(Half2(Half4(Half8(Half16(y))))));
  }

  // A word with one bit set.
  ghost predicate OneBit(w: bv32) {
    w != 0 && w & (w - 1) == 0
  }

  lemma FoldedOneBit(w: bv32)
    requires OneBit(w)
    ensures Folded(w) == 1
  {
  }

  // The lowest one alone.
  function Lowest(x: bv32): bv32 {
    Xor(x, Rest(x))
  }

  lemma LowestOneBit(x: bv32)
    requires x != 0
    ensures OneBit(Lowest(x))
  {
  }

  lemma LowestJoins(x: bv32)
    ensures x == Xor(Rest(x), Lowest(x))
  {
    hide Xor, Rest;
    XorLaws(Rest(x), x, Rest(x));
    XorLaws(x, Rest(x), Rest(x));
    XorCancels(Rest(x), x);
  }

  lemma XorCancels(r: bv32, x: bv32)
    ensures Xor(x, Xor(r, r)) == x
  {
  }

  lemma FoldedBit(x: bv32)
    ensures Folded(x) == 0 || Folded(x) == 1
    ensures Folded(0) == 0
  {
  }

  lemma XorOne(b: bv32)
    requires b == 0 || b == 1
    ensures Xor(b, 1) == 1 - b
  {
  }

  // Folding finds the parity.
  lemma {:induction false} FoldedIsParity(x: bv32)
    ensures Folded(x) == 1 <==> OddOnes(x)
    decreases x
  {
    hide Folded, Xor, Rest, OneBit, Lowest;
    FoldedBit(x);
    if x != 0 {
      var w := Lowest(x);
      RestSmaller(x);
      LowestOneBit(x);
      LowestJoins(x);
      FoldedIsParity(Rest(x));
      FoldedLinear(Rest(x), w);
      FoldedOneBit(w);
      FoldedBit(Rest(x));
      XorOne(Folded(Rest(x)));
    }
  }

  // The bits that the mask selects, brought together in one word.
  function Selected(words: seq<bv32>, parity: seq<bv32>, n: nat): bv32
    requires n <= |words| && n <= |parity|
  {
    if n == 0 then 0 else Xor(Selected(words, parity, n - 1), And(words[n - 1], parity[n - 1]))
  }

  // The number of selected bits that are set is odd.
  ghost predicate Certified(words: seq<bv32>, parity: seq<bv32>)
    requires 4 <= |words| && |parity| == 4
  {
    OddOnes(Selected(words, parity, 4))
  }

  lemma MaskedFlip(x: bv32, mask: bv32, w: bv32)
    requires OneBit(w) && And(w, mask) != 0
    ensures And(Xor(x, w), mask) == Xor(And(x, mask), w)
  {
  }

  // Flipping one selected bit flips one bit of what is selected.
  lemma {:induction false} SelectedFlip(words: seq<bv32>, parity: seq<bv32>, n: nat, i: nat, w: bv32)
    requires i < n <= |words| && n <= |parity| && OneBit(w) && And(w, parity[i]) != 0
    ensures Selected(words[i := Xor(words[i], w)], parity, n) == Xor(Selected(words, parity, n), w)
    decreases n
  {
    hide Xor, And, OneBit;
    var flipped := words[i := Xor(words[i], w)];
    if i == n - 1 {
      SelectedSame(words, flipped, parity, n - 1);
      MaskedFlip(words[i], parity[i], w);
      XorLaws(Selected(words, parity, n - 1), And(words[i], parity[i]), w);
    } else {
      SelectedFlip(words, parity, n - 1, i, w);
      XorSwap(Selected(words, parity, n - 1), w, And(words[n - 1], parity[n - 1]));
    }
  }

  lemma {:induction false} SelectedSame(words: seq<bv32>, other: seq<bv32>, parity: seq<bv32>, n: nat)
    requires n <= |words| == |other| && n <= |parity| && forall j | 0 <= j < n :: words[j] == other[j]
    ensures Selected(words, parity, n) == Selected(other, parity, n)
  {
    if n > 0 {
      SelectedSame(words, other, parity, n - 1);
    }
  }

  lemma FlipCertifies(words: seq<bv32>, parity: seq<bv32>, i: nat, w: bv32)
    requires 4 <= |words| && |parity| == 4 && i < 4 && OneBit(w) && And(w, parity[i]) != 0
    requires !Certified(words, parity)
    ensures Certified(words[i := Xor(words[i], w)], parity)
  {
    hide Folded, Xor, OneBit, Selected;
    var s := Selected(words, parity, 4);
    SelectedFlip(words, parity, 4, i, w);
    FoldedIsParity(s);
    FoldedIsParity(Xor(s, w));
    FoldedLinear(s, w);
    FoldedOneBit(w);
    FoldedBit(s);
    XorOne(Folded(s));
  }

  // 1 << j
  function Bit(j: nat): bv32 {
    if j == 0 then 1 else Bit(j - 1) << 1
  }

  // The places of p below the bit `work` are clear.
  ghost predicate ClearBelow(p: bv32, work: bv32) {
    p & (work - 1) == 0 && (OneBit(work) || work == 0)
  }

  function Twice(work: bv32): bv32 {
    work << 1
  }

  lemma NextBit(p: bv32, work: bv32)
    requires ClearBelow(p, work) && And(work, p) == 0 && work != 0
    ensures ClearBelow(p, Twice(work))
  {
  }

  lemma ClearBelowNone(p: bv32)
    requires ClearBelow(p, 0)
    ensures p == 0
  {
  }

  lemma OneBitLeft(p: bv32, work: bv32)
    requires ClearBelow(p, work) && work != 0
    ensures OneBit(work)
  {
  }

  lemma BitsNonzero(j: nat)
    requires j < 32
    ensures Bit(j) != 0 && Bit(32) == 0
  {
    hide Bit;
    if j < 8 {
      FirstBits();
    } else if j < 16 {
      SecondBits();
    } else if j < 24 {
      ThirdBits();
    } else {
      FourthBits();
    }
    FourthBits();
  }

  lemma FirstBits()
    ensures forall j | 0 <= j < 8 :: Bit(j) != 0
    ensures Bit(8) == 0x100
  {
    assert Bit(0) == 1 && Bit(1) == 2 && Bit(2) == 4 && Bit(3) == 8 && Bit(4) == 16 && Bit(5) == 32 && Bit(6) == 64
      && Bit(7) == 128;
  }

  lemma SecondBits()
    ensures forall j | 8 <= j < 16 :: Bit(j) != 0
    ensures Bit(16) == 0x1_0000
  {
    FirstBits();
    assert Bit(9) == 0x200 && Bit(10) == 0x400 && Bit(11) == 0x800 && Bit(12) == 0x1000;
    assert Bit(13) == 0x2000 && Bit(14) == 0x4000 && Bit(15) == 0x8000;
  }

  lemma ThirdBits()
    ensures forall j | 16 <= j < 24 :: Bit(j) != 0
    ensures Bit(24) == 0x100_0000
  {
    SecondBits();
    assert Bit(17) == 0x2_0000 && Bit(18) == 0x4_0000 && Bit(19) == 0x8_0000 && Bit(20) == 0x10_0000;
    assert Bit(21) == 0x20_0000 && Bit(22) == 0x40_0000 && Bit(23) == 0x80_0000;
  }

  lemma FourthBits()
    ensures forall j | 24 <= j < 32 :: Bit(j) != 0
    ensures Bit(32) == 0
  {
    ThirdBits();
    assert Bit(25) == 0x200_0000 && Bit(26) == 0x400_0000 && Bit(27) == 0x800_0000 && Bit(28) == 0x1000_0000;
    assert Bit(29) == 0x2000_0000 && Bit(30) == 0x4000_0000 && Bit(31) == 0x8000_0000;
  }

  // The bit to flip: the lowest that the mask of this word selects, if any.
  method LowestSelected(parity: bv32) returns (found: bool, work: bv32)
    ensures found ==> OneBit(work) && And(work, parity) != 0 && ClearBelow(parity, work)
    ensures !found ==> parity == 0
  {
    hide Bit, OneBit, And, ClearBelow, Twice;
    work := 1;
    found := false;
    Start(parity);
    var j := 0;
    while j < 32
      invariant 0 <= j <= 32 && work == Bit(j) && ClearBelow(parity, work)
    {
      BitsNonzero(j);
      OneBitLeft(parity, work);
      if And(work, parity) != 0 {
        found := true;
        return;
      }
      NextBit(parity, work);
      BitNext(j);
      work := Twice(work);
      j := j + 1;
    }
    BitsNonzero(0);
    ClearBelowNone(parity);
  }

  lemma Start(p: bv32)
    ensures Bit(0) == 1 && ClearBelow(p, 1)
  {
  }

  lemma BitNext(j: nat)
    ensures Bit(j + 1) == Twice(Bit(j))
  {
  }

  // The first bit that the mask selects.
  ghost predicate LowestBit(parity: seq<bv32>, i: nat, w: bv32) {
    && i < |parity| && (forall k | 0 <= k < i :: parity[k] == 0)
    && OneBit(w) && And(w, parity[i]) != 0 && ClearBelow(parity[i], w)
  }

  // Afterwards the state is certified; if it was not, one bit has changed.
  method PeriodCertification(words: array<bv32>, parity: seq<bv32>)
    requires 4 <= words.Length && |parity| == 4 && exists i | 0 <= i < 4 :: parity[i] != 0
    modifies words
    ensures Certified(words[..], parity)
    ensures old(Certified(words[..], parity)) ==> words[..] == old(words[..])
    ensures !old(Certified(words[..], parity)) ==>
      exists i: nat, w | LowestBit(parity, i, w) :: words[..] == old(words[..])[i := Xor(old(words[..])[i], w)]
  {
    hide Folded, Xor, And, OneBit, OddOnes, ClearBelow;
    var inner: bv32 := 0;
    var i := 0;
    while i < 4
      invariant 0 <= i <= 4 && inner == Selected(words[..], parity, i)
    {
      inner := Xor(inner, And(words[i], parity[i]));
      i := i + 1;
    }
    FoldedIsParity(inner);
    inner := Folded(inner);
    if inner == 1 {
      return;
    }
    i := 0;
    while i < 4
      invariant 0 <= i <= 4 && words[..] == old(words[..])
      invariant forall k | 0 <= k < i :: parity[k] == 0
    {
      var found, work := LowestSelected(parity[i]);
      if found {
        FlipCertifies(words[..], parity, i, work);
        words[i] := Xor(words[i], work);
        assert LowestBit(parity, i, work);
        assert words[..] == old(words[..])[i := Xor(old(words[..])[i], work)];
        return;
      }
      i := i + 1;
    }
  }

  // SFMT_PARITY1 to SFMT_PARITY4
  const PARITY: seq<bv32> := [0x0000_0001, 0x0000_0000, 0x0000_0000, 0x13c9_e684]
}
