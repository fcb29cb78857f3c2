// Scalars modulo the group order l (section 5.1 of RFC 8032), as limbs of 21
// bits that may be negative and may be larger than their place for a while:
// folding a high limb down, and carrying from one limb to the next.
module ScalarLimbs {
  import opened Basics
  import opened Powers

  const L: int := 0x1000_0000_0000_0000_0000_0000_0000_0000_14de_f9de_a2f7_9cd6_5812_631a_5cf5_d3ed

  // What the limbs amount to.
  function LimbValue(s: seq<int>): int {
    if s == [] then 0 else s[0] + 0x20_0000 * LimbValue(s[1..])
  }

  function Weight(j: nat): (w: int)
    ensures 0 < w
  {
    if j == 0 then 1 else 0x20_0000 * Weight(j - 1)
  }

  lemma {:induction false} WeightAdds(j: nat, k: nat)
    ensures Weight(j + k) == Weight(j) * Weight(k)
  {
    if j > 0 {
      WeightAdds(j - 1, k);
      MulGroups(0x20_0000, Weight(j - 1), Weight(k));
    }
  }

  function Weighed(d: int, w: int): int {
    d * w
  }

  // Adding to one limb adds as much to the value, times the limb's weight.
  lemma {:induction false} LimbAdd(s: seq<int>, j: nat, d: int)
    requires j < |s|
    ensures LimbValue(s[j := s[j] + d]) == LimbValue(s) + Weighed(d, Weight(j))
    decreases j
  {
    var t := s[j := s[j] + d];
    if j == 0 {
      assert t[1..] == s[1..];
    } else {
      assert t[1..] == s[1..][j - 1 := s[1..][j - 1] + d];
      LimbAdd(s[1..], j - 1, d);
      MulGroups(d, 0x20_0000, Weight(j - 1));
      MulGroups(0x20_0000, d, Weight(j - 1));
    }
  }

  // ----- folding: 2^252 is -c modulo l, with c split over six limbs

  function Folded(s: seq<int>, i: nat): (t: seq<int>)
    requires 12 <= i < |s|
    ensures |t| == |s|
  {
    var m := s[i];
    s[i - 12 := s[i - 12] + m * 666643]
     [i - 11 := s[i - 11] + m * 470296]
     [i - 10 := s[i - 10] + m * 654183]
     [i - 9 := s[i - 9] - m * 997805]
     [i - 8 := s[i - 8] + m * 136657]
     [i - 7 := s[i - 7] - m * 683901]
     [i := 0]
  }

  // A limb's share of the fold, in units of m times the lowest weight.
  lemma Share(m: int, c: int, j: nat, k: nat)
    ensures Weighed(m * c, Weight(j + k)) == Weighed(m, Weight(j)) * (c * Weight(k))
  {
    var w, q := Weight(j), Weight(k);
    WeightAdds(j, k);
    MulGroups(m * c, w, q);
    MulGroups(m, c, w);
    MulGroups(m, w, c);
    MulGroups(m * w, c, q);
    assert c * w == w * c;
  }

  lemma FoldWeights()
    ensures Weight(0) == 1 && Weight(1) == 0x20_0000 && Weight(2) == 0x20_0000 * 0x20_0000
    ensures Weight(3) == 0x20_0000 * 0x20_0000 * 0x20_0000 && Weight(4) ==
      0x20_0000 * 0x20_0000 * 0x20_0000 * 0x20_0000
    ensures Weight(5) == 0x20_0000 * 0x20_0000 * 0x20_0000 * 0x20_0000 * 0x20_0000
    ensures Weight(12) == 0x1000_0000_0000_0000_0000_0000_0000_0000_0000_0000_0000_0000_0000_0000_0000_0000
  {
  }

  // Folding takes away a multiple of l.
  lemma FoldValue(s: seq<int>, i: nat)
    requires 12 <= i < |s|
    ensures LimbValue(Folded(s, i)) == LimbValue(s) - Weighed(s[i], Weight(i - 12)) * L
  {
    hide LimbValue, Weight, Weighed;
    var m := s[i];
    var s0 := s[i - 12 := s[i - 12] + m * 666643];
    var s1 := s0[i - 11 := s0[i - 11] + m * 470296];
    var s2 := s1[i - 10 := s1[i - 10] + m * 654183];
    var s3 := s2[i - 9 := s2[i - 9] + m * -997805];
    var s4 := s3[i - 8 := s3[i - 8] + m * 136657];
    var s5 := s4[i - 7 := s4[i - 7] + m * -683901];
    LimbAdd(s, i - 12, m * 666643);
    LimbAdd(s0, i - 11, m * 470296);
    LimbAdd(s1, i - 10, m * 654183);
    LimbAdd(s2, i - 9, m * -997805);
    LimbAdd(s3, i - 8, m * 136657);
    LimbAdd(s4, i - 7, m * -683901);
    LimbAdd(s5, i, m * -1);
    FoldShares(m, i - 12);
  }

  lemma FoldShares(m: int, j: nat)
    ensures Weighed(m * 666643, Weight(j)) + Weighed(m * 470296, Weight(j + 1)) + Weighed(m * 654183, Weight(j + 2))
          + Weighed(m * -997805, Weight(j + 3)) + Weighed(m * 136657, Weight(j + 4))
          + Weighed(m * -683901, Weight(j + 5))
          + Weighed(m * -1, Weight(j + 12))
         == -(Weighed(m, Weight(j)) * L)
  {
    hide Weight, Weighed;
    FoldWeights();
    Share(m, 666643, j, 0);
    Share(m, 470296, j, 1);
    Share(m, 654183, j, 2);
    Share(m, -997805, j, 3);
    Share(m, 136657, j, 4);
    Share(m, -683901, j, 5);
    Share(m, -1, j, 12);
  }

  // ----- carrying

  // carry * (1 << 21)
  function Shl21(carry: int): int {
    carry * 0x20_0000
  }

  function Carried(s: seq<int>, i: nat, carry: int): (t: seq<int>)
    requires i + 1 < |s|
    ensures |t| == |s|
  {
    Moved(s, i, carry, Shl21(carry))
  }

  function Moved(s: seq<int>, i: nat, carry: int, taken: int): (t: seq<int>)
    requires i + 1 < |s|
    ensures |t| == |s|
  {
    var t := s[i + 1 := s[i + 1] + carry];
    t[i := t[i] - taken]
  }

  // What goes to the next limb and what is taken from this one weigh the same.
  lemma Balanced(s: seq<int>, i: nat, carry: int, taken: int)
    requires i + 1 < |s| && Weighed(carry, Weight(i + 1)) + Weighed(-taken, Weight(i)) == 0
    ensures LimbValue(Moved(s, i, carry, taken)) == LimbValue(s)
  {
    hide LimbValue, Weight, Weighed;
    var t := s[i + 1 := s[i + 1] + carry];
    LimbAdd(s, i + 1, carry);
    LimbAdd(t, i, -taken);
    assert t[i] + -taken == t[i] - taken;
  }

  // A carry changes no value.
  lemma CarryValue(s: seq<int>, i: nat, carry: int)
    requires i + 1 < |s|
    ensures LimbValue(Carried(s, i, carry)) == LimbValue(s)
  {
    hide LimbValue, Weight, Weighed, Shl21, Moved;
    CarryArithmetic(carry, i);
    Balanced(s, i, carry, Shl21(carry));
  }

  lemma CarryArithmetic(carry: int, i: nat)
    ensures Weighed(carry, Weight(i + 1)) + Weighed(-Shl21(carry), Weight(i)) == 0
  {
    hide Weight;
    WeightNext(i);
    MulGroups(carry, 0x20_0000, Weight(i));
  }

  lemma WeightNext(i: nat)
    ensures Weight(i + 1) == 0x20_0000 * Weight(i)
  {
  }

  // ----- the same on limbs in place, none of it outside 64 bits

  // What `x >> 21` is on a signed 64-bit integer.
  function Shr21(x: int): (q: int)
    ensures q * 0x20_0000 <= x < q * 0x20_0000 + 0x20_0000
  {
    x / 0x20_0000
  }

  ghost predicate Within(s: seq<int>, lo: nat, hi: nat, b: int)
    requires hi <= |s|
  {
    forall j | lo <= j < hi :: -b <= s[j] <= b
  }

  // s[i - 12] += s[i] * 666643 and so on
  method Fold(s: array<int64>, i: nat, ghost m: int)
    requires 12 <= i < s.Length
    requires -m <= s[i] <= m <= 0x10_0000_0000
    requires forall j | i - 12 <= j < i - 6 :: -0x4000_0000_0000_0000 <= s[j] < 0x4000_0000_0000_0000
    modifies s
    ensures LimbValue(s[..]) == LimbValue(old(s[..])) - Weighed(old(s[i]), Weight(i - 12)) * L
    ensures s[i] == 0
    ensures forall j | 0 <= j < s.Length && j != i ::
      if i - 12 <= j < i - 6 then old(s[j]) - 997805 * m <= s[j] <= old(s[j]) + 997805 * m else s[j] == old(s[j])
  {
    hide LimbValue, Weight, Weighed;
    FoldValue(s[..], i);
    ghost var t := Folded(s[..], i);
    var p0: int64, p1: int64, p2: int64 := s[i] * 666643, s[i] * 470296, s[i] * 654183;
    var p3: int64, p4: int64, p5: int64 := s[i] * 997805, s[i] * 136657, s[i] * 683901;
    s[i - 12] := s[i - 12] + p0;
    s[i - 11] := s[i - 11] + p1;
    s[i - 10] := s[i - 10] + p2;
    s[i - 9] := s[i - 9] - p3;
    s[i - 8] := s[i - 8] + p4;
    s[i - 7] := s[i - 7] - p5;
    s[i] := 0;
    assert s[..] == t;
  }

  // carry = (s[i] + (1 << 20)) >> 21, so that what stays is balanced
  method RoundCarry(s: array<int64>, i: nat)
    requires i + 1 < s.Length
    requires -0x4000_0000_0000_0000 <= s[i] < 0x4000_0000_0000_0000
    requires -0x4000_0000_0000_0000 <= s[i + 1] < 0x4000_0000_0000_0000
    modifies s
    ensures LimbValue(s[..]) == LimbValue(old(s[..]))
    ensures -0x10_0000 <= s[i] < 0x10_0000
    ensures s[i + 1] == old(s[i + 1]) + Shr21(old(s[i]) + 0x10_0000)
    ensures forall j | 0 <= j < s.Length && j != i && j != i + 1 :: s[j] == old(s[j])
  {
    hide LimbValue;
    ghost var t := Carried(s[..], i, Shr21(s[i] + 0x10_0000));
    CarryValue(s[..], i, Shr21(s[i] + 0x10_0000));
    var rounded: int64 := s[i] + 0x10_0000;
    var carry: int64 := Shr21(rounded);
    s[i + 1] := s[i + 1] + carry;
    var shifted: int64 := Shl21(carry);
    s[i] := s[i] - shifted;
    assert s[..] == t;
  }

  // carry = s[i] >> 21, so that what stays is a digit
  method FloorCarry(s: array<int64>, i: nat)
    requires i + 1 < s.Length
    requires -0x4000_0000_0000_0000 <= s[i] < 0x4000_0000_0000_0000
    requires -0x4000_0000_0000_0000 <= s[i + 1] < 0x4000_0000_0000_0000
    modifies s
    ensures LimbValue(s[..]) == LimbValue(old(s[..]))
    ensures 0 <= s[i] < 0x20_0000
    ensures s[i + 1] == old(s[i + 1]) + Shr21(old(s[i]))
    ensures forall j | 0 <= j < s.Length && j != i && j != i + 1 :: s[j] == old(s[j])
  {
    hide LimbValue;
    ghost var t := Carried(s[..], i, Shr21(s[i]));
    CarryValue(s[..], i, Shr21(s[i]));
    var carry: int64 := Shr21(s[i]);
    s[i + 1] := s[i + 1] + carry;
    var shifted: int64 := Shl21(carry);
    s[i] := s[i] - shifted;
    assert s[..] == t;
  }

  // ----- the runs of folds and carries that both functions make

  // Of the six limbs from `top` down, those above `i` have been folded: k times
  // l has gone from the value, and the limbs folded into are within b.
  ghost predicate Folding(s: seq<int>, s0: seq<int>, top: nat, i: nat, b: int, m: int, k: int)
    requires 17 <= top < |s| && top - 6 <= i <= top
  {
    && |s0| == |s| && LimbValue(s) == LimbValue(s0) - k * L
    && (forall j | top - 17 <= j < top - 6 :: -b <= s[j] <= b)
    && (forall j | top - 5 <= j <= i :: -m <= s[j] <= m)
    && (forall j | i < j <= top :: s[j] == 0)
    && (forall j | 0 <= j < |s| && !(top - 17 <= j < top - 6) && !(top - 5 <= j <= top) :: s[j] == s0[j])
  }

  method FoldNext(s: array<int64>, i: nat, ghost top: nat, ghost s0: seq<int>, ghost b: int, ghost m: int,
    ghost k: int)
    returns (ghost k1: int)
    requires 17 <= top < s.Length && top - 5 <= i <= top
    requires 0 <= m <= 0x10_0000_0000 && 0 <= b < 0x4000_0000_0000_0000
    requires Folding(s[..], s0, top, i, b, m, k)
    modifies s
    ensures Folding(s[..], s0, top, i - 1, b + 997805 * m, m, k1)
  {
    hide LimbValue, Weight, Weighed;
    k1 := k + Weighed(s[i], Weight(i - 12));
    Fold(s, i, m);
  }

  // Six limbs from `top` down, none of them touched by the folds before it.
  method FoldSix(s: array<int64>, top: nat, ghost b: int, ghost m: int) returns (ghost k: int)
    requires 17 <= top < s.Length
    requires 0 <= m <= 0x10_0000_0000 && 0 <= b && b + 6 * 997805 * m < 0x4000_0000_0000_0000
    requires Within(s[..], top - 17, top - 6, b) && Within(s[..], top - 5, top + 1, m)
    modifies s
    ensures Folding(s[..], old(s[..]), top, top - 6, b + 6 * 997805 * m, m, k)
  {
    hide LimbValue, Folding;
    ghost var s0 := s[..];
    FoldingStarts(s0, top, b, m);
    k := FoldNext(s, top, top, s0, b, m, 0);
    k := FoldNext(s, top - 1, top, s0, b + 997805 * m, m, k);
    k := FoldNext(s, top - 2, top, s0, b + 2 * 997805 * m, m, k);
    k := FoldNext(s, top - 3, top, s0, b + 3 * 997805 * m, m, k);
    k := FoldNext(s, top - 4, top, s0, b + 4 * 997805 * m, m, k);
    k := FoldNext(s, top - 5, top, s0, b + 5 * 997805 * m, m, k);
  }

  lemma FoldingStarts(s: seq<int>, top: nat, b: int, m: int)
    requires 17 <= top < |s|
    requires forall j | top - 17 <= j < top - 6 :: -b <= s[j] <= b
    requires forall j | top - 5 <= j <= top :: -m <= s[j] <= m
    ensures Folding(s, s, top, top, b, m, 0)
  {
  }

  // Every other limb from lo up to i has been carried to the next: it is
  // balanced, and the ones between have changed by no more than c.
  ghost predicate Rounding(s: seq<int>, s0: seq<int>, lo: nat, i: nat, c: int) {
    && |s| == |s0| && LimbValue(s) == LimbValue(s0)
    && forall j | 0 <= j < |s| ::
         if lo <= j < i then
           if (j - lo) % 2 == 0 then -0x10_0000 <= s[j] <= 0x10_0000 else s0[j] - c <= s[j] <= s0[j] + c
         else s[j] == s0[j]
  }

  // The carries at lo, lo + 2 and so on, `count` of them.
  method RoundRun(s: array<int64>, lo: nat, count: nat, ghost b: int)
    requires lo + 2 * count <= s.Length
    requires 0 <= b < 0x2000_0000_0000_0000
    requires Within(s[..], lo, lo + 2 * count, b)
    modifies s
    ensures Rounding(s[..], old(s[..]), lo, lo + 2 * count, b / 0x20_0000 + 1)
  {
    hide LimbValue;
    ghost var s0 := s[..];
    var n := 0;
    while n < count
      invariant 0 <= n <= count
      invariant Rounding(s[..], s0, lo, lo + 2 * n, b / 0x20_0000 + 1)
    {
      var i := lo + 2 * n;
      assert s[i] == s[..][i] && s[i + 1] == s[..][i + 1];
      RoundCarry(s, i);
      n := n + 1;
    }
  }

  // The limbs below i are digits.
  ghost predicate Flooring(s: seq<int>, s0: seq<int>, i: nat, b: int) {
    && |s| == |s0| && LimbValue(s) == LimbValue(s0)
    && forall j | 0 <= j < |s| ::
         if j < i then 0 <= s[j] < 0x20_0000 else if j == i then s0[j] - b <= s[j] <= s0[j] + b else s[j] == s0[j]
  }

  // The carries at 0, 1 and so on, `count` of them.
  method FloorRun(s: array<int64>, count: nat, ghost b: int)
    requires count < s.Length
    requires 2 <= b < 0x1000_0000_0000_0000
    requires Within(s[..], 0, count + 1, b)
    modifies s
    ensures Flooring(s[..], old(s[..]), count, b)
  {
    hide LimbValue;
    ghost var s0 := s[..];
    var i := 0;
    while i < count
      invariant 0 <= i <= count
      invariant Flooring(s[..], s0, i, b)
    {
      assert s[i] == s[..][i] && s[i + 1] == s[..][i + 1];
      FloorCarry(s, i);
      i := i + 1;
    }
  }
}
