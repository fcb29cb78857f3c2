// The field of 2^255 - 19 elements (section 5.1 of RFC 8032), as ten limbs of
// alternately 26 and 25 bits, which may be negative.
module Field {

  const P: int := 0x7fff_ffff_ffff_ffff_ffff_ffff_ffff_ffff_ffff_ffff_ffff_ffff_ffff_ffff_ffff_ffed

  // h[0] + 2^26 h[1] + 2^51 h[2] + 2^77 h[3] + ...
  function FieldValue(h: seq<int>): int
    requires |h| == 10
  {
    h[0]
    + 0x400_0000 * h[1]
    + 0x8_0000_0000_0000 * h[2]
    + 0x2000_0000_0000_0000_0000 * h[3]
    + 0x40_0000_0000_0000_0000_0000_0000 * h[4]
    + 0x1_0000_0000_0000_0000_0000_0000_0000_0000 * h[5]
    + 0x200_0000_0000_0000_0000_0000_0000_0000_0000_0000 * h[6]
    + 0x8_0000_0000_0000_0000_0000_0000_0000_0000_0000_0000_0000 * h[7]
    + 0x1000_0000_0000_0000_0000_0000_0000_0000_0000_0000_0000_0000_0000 * h[8]
    + 0x40_0000_0000_0000_0000_0000_0000_0000_0000_0000_0000_0000_0000_0000_0000 * h[9]
  }

  // Limbs within `even` and `odd`, by turns.
  ghost predicate Bounded(h: seq<int>, even: int, odd: int) {
    |h| == 10 && forall i | 0 <= i < 10 :: if i % 2 == 0 then -even <= h[i] <= even else -odd <= h[i] <= odd
  }

  // ----- the columns of a product

  // x * (int64_t) y
  function Mul64(x: int, y: int): int {
    x * y
  }

  // Which limb of g meets limb i of f in column k.
  function Partner(k: nat, i: nat): (j: nat)
    requires k < 10 && i < 10
    ensures j < 10
  {
    if i <= k then k - i else k + 10 - i
  }

  // Their product, twice where two odd limbs meet, and 19 times past 2^255.
  function Cell(f: seq<int>, g: seq<int>, k: nat, i: nat): int
    requires |f| == |g| == 10 && k < 10 && i < 10
  {
    var j := Partner(k, i);
    Mul64(if i % 2 == 1 && j % 2 == 1 then 2 * f[i] else f[i], if i > k then 19 * g[j] else g[j])
  }

  // Column k from limb i of f on.
  function Column(f: seq<int>, g: seq<int>, k: nat, i: nat): int
    requires |f| == |g| == 10 && k < 10
    decreases 10 - i
  {
    if i >= 10 then 0 else Cell(f, g, k, i) + Column(f, g, k, i + 1)
  }

  // h0 to h9 as fe_mul adds them up
  function MulColumns(f: seq<int>, g: seq<int>): (h: seq<int>)
    requires |f| == |g| == 10
    ensures |h| == 10
  {
    var g1_19, g2_19, g3_19, g4_19, g5_19, g6_19, g7_19, g8_19, g9_19 :=
      19 * g[1], 19 * g[2], 19 * g[3], 19 * g[4], 19 * g[5], 19 * g[6], 19 * g[7], 19 * g[8], 19 * g[9];
    var f1_2, f3_2, f5_2, f7_2, f9_2 := 2 * f[1], 2 * f[3], 2 * f[5], 2 * f[7], 2 * f[9];
    [ Mul64(f[0], g[0]) + Mul64(f1_2, g9_19) + Mul64(f[2], g8_19) + Mul64(f3_2, g7_19) + Mul64(f[4], g6_19)
        + Mul64(f5_2, g5_19) + Mul64(f[6], g4_19) + Mul64(f7_2, g3_19) + Mul64(f[8], g2_19) + Mul64(f9_2, g1_19),
      Mul64(f[0], g[1]) + Mul64(f[1], g[0]) + Mul64(f[2], g9_19) + Mul64(f[3], g8_19) + Mul64(f[4], g7_19)
        + Mul64(f[5], g6_19) + Mul64(f[6], g5_19) + Mul64(f[7], g4_19) + Mul64(f[8], g3_19) + Mul64(f[9], g2_19),
      Mul64(f[0], g[2]) + Mul64(f1_2, g[1]) + Mul64(f[2], g[0]) + Mul64(f3_2, g9_19) + Mul64(f[4], g8_19)
        + Mul64(f5_2, g7_19) + Mul64(f[6], g6_19) + Mul64(f7_2, g5_19) + Mul64(f[8], g4_19) + Mul64(f9_2, g3_19),
      Mul64(f[0], g[3]) + Mul64(f[1], g[2]) + Mul64(f[2], g[1]) + Mul64(f[3], g[0]) + Mul64(f[4], g9_19)
        + Mul64(f[5], g8_19) + Mul64(f[6], g7_19) + Mul64(f[7], g6_19) + Mul64(f[8], g5_19) + Mul64(f[9], g4_19),
      Mul64(f[0], g[4]) + Mul64(f1_2, g[3]) + Mul64(f[2], g[2]) + Mul64(f3_2, g[1]) + Mul64(f[4], g[0])
        + Mul64(f5_2, g9_19) + Mul64(f[6], g8_19) + Mul64(f7_2, g7_19) + Mul64(f[8], g6_19) + Mul64(f9_2, g5_19),
      Mul64(f[0], g[5]) + Mul64(f[1], g[4]) + Mul64(f[2], g[3]) + Mul64(f[3], g[2]) + Mul64(f[4], g[1])
        + Mul64(f[5], g[0]) + Mul64(f[6], g9_19) + Mul64(f[7], g8_19) + Mul64(f[8], g7_19) + Mul64(f[9], g6_19),
      Mul64(f[0], g[6]) + Mul64(f1_2, g[5]) + Mul64(f[2], g[4]) + Mul64(f3_2, g[3]) + Mul64(f[4], g[2])
        + Mul64(f5_2, g[1]) + Mul64(f[6], g[0]) + Mul64(f7_2, g9_19) + Mul64(f[8], g8_19) + Mul64(f9_2, g7_19),
      Mul64(f[0], g[7]) + Mul64(f[1], g[6]) + Mul64(f[2], g[5]) + Mul64(f[3], g[4]) + Mul64(f[4], g[3])
        + Mul64(f[5], g[2]) + Mul64(f[6], g[1]) + Mul64(f[7], g[0]) + Mul64(f[8], g9_19) + Mul64(f[9], g8_19),
      Mul64(f[0], g[8]) + Mul64(f1_2, g[7]) + Mul64(f[2], g[6]) + Mul64(f3_2, g[5]) + Mul64(f[4], g[4])
        + Mul64(f5_2, g[3]) + Mul64(f[6], g[2]) + Mul64(f7_2, g[1]) + Mul64(f[8], g[0]) + Mul64(f9_2, g9_19),
      Mul64(f[0], g[9]) + Mul64(f[1], g[8]) + Mul64(f[2], g[7]) + Mul64(f[3], g[6]) + Mul64(f[4], g[5])
        + Mul64(f[5], g[4]) + Mul64(f[6], g[3]) + Mul64(f[7], g[2]) + Mul64(f[8], g[1]) + Mul64(f[9], g[0]) ]
  }

  lemma MulColumnsAre(f: seq<int>, g: seq<int>)
    requires |f| == |g| == 10
    ensures forall k | 0 <= k < 10 :: MulColumns(f, g)[k] == Column(f, g, k, 0)
  {
    hide Mul64;
  }

  // h0 to h9 as fe_sq adds them up, every pair of limbs once
  function SqColumns(f: seq<int>): (h: seq<int>)
    requires |f| == 10
    ensures |h| == 10
  {
    var f0_2, f1_2, f2_2, f3_2, f4_2, f5_2, f6_2, f7_2 :=
      2 * f[0], 2 * f[1], 2 * f[2], 2 * f[3], 2 * f[4], 2 * f[5], 2 * f[6], 2 * f[7];
    var f5_38, f6_19, f7_38, f8_19, f9_38 := 38 * f[5], 19 * f[6], 38 * f[7], 19 * f[8], 38 * f[9];
    [ Mul64(f[0], f[0]) + Mul64(f1_2, f9_38) + Mul64(f2_2, f8_19) + Mul64(f3_2, f7_38) + Mul64(f4_2, f6_19)
      + Mul64(f[5], f5_38),
      Mul64(f0_2, f[1]) + Mul64(f[2], f9_38) + Mul64(f3_2, f8_19) + Mul64(f[4], f7_38) + Mul64(f5_2, f6_19),
      Mul64(f0_2, f[2]) + Mul64(f1_2, f[1]) + Mul64(f3_2, f9_38) + Mul64(f4_2, f8_19) + Mul64(f5_2, f7_38)
        + Mul64(f[6], f6_19),
      Mul64(f0_2, f[3]) + Mul64(f1_2, f[2]) + Mul64(f[4], f9_38) + Mul64(f5_2, f8_19) + Mul64(f[6], f7_38),
      Mul64(f0_2, f[4]) + Mul64(f1_2, f3_2) + Mul64(f[2], f[2]) + Mul64(f5_2, f9_38) + Mul64(f6_2, f8_19)
        + Mul64(f[7], f7_38),
      Mul64(f0_2, f[5]) + Mul64(f1_2, f[4]) + Mul64(f2_2, f[3]) + Mul64(f[6], f9_38) + Mul64(f7_2, f8_19),
      Mul64(f0_2, f[6]) + Mul64(f1_2, f5_2) + Mul64(f2_2, f[4]) + Mul64(f3_2, f[3]) + Mul64(f7_2, f9_38)
        + Mul64(f[8], f8_19),
      Mul64(f0_2, f[7]) + Mul64(f1_2, f[6]) + Mul64(f2_2, f[5]) + Mul64(f3_2, f[4]) + Mul64(f[8], f9_38),
      Mul64(f0_2, f[8]) + Mul64(f1_2, f7_2) + Mul64(f2_2, f[6]) + Mul64(f3_2, f5_2) + Mul64(f[4], f[4])
        + Mul64(f[9], f9_38),
      Mul64(f0_2, f[9]) + Mul64(f1_2, f[8]) + Mul64(f2_2, f[7]) + Mul64(f3_2, f[6]) + Mul64(f4_2, f[5]) ]
  }

  // Two cells of a product that become one of a square.
  lemma MulPair(x: int, y: int)
    ensures Mul64(2 * x, y) == Mul64(x, y) + Mul64(y, x)
    ensures Mul64(2 * x, 2 * y) == Mul64(2 * x, y) + Mul64(2 * y, x)
    ensures Mul64(2 * x, 19 * y) == Mul64(x, 19 * y) + Mul64(y, 19 * x)
    ensures Mul64(x, 38 * y) == Mul64(x, 19 * y) + Mul64(y, 19 * x)
    ensures Mul64(2 * x, 38 * y) == Mul64(2 * x, 19 * y) + Mul64(2 * y, 19 * x)
    ensures x == y ==> Mul64(x, 38 * y) == Mul64(2 * x, 19 * y)
  {
  }

  lemma SqColumnsFirst(f: seq<int>)
    requires |f| == 10
    ensures SqColumns(f)[0] == MulColumns(f, f)[0] && SqColumns(f)[1] == MulColumns(f, f)[1]
    ensures SqColumns(f)[2] == MulColumns(f, f)[2]
  {
    hide Mul64;
    MulPair(f[1], f[9]); MulPair(f[2], f[8]); MulPair(f[3], f[7]); MulPair(f[4], f[6]); MulPair(f[5], f[5]);
    MulPair(f[0], f[1]); MulPair(f[2], f[9]); MulPair(f[3], f[8]); MulPair(f[4], f[7]); MulPair(f[5], f[6]);
    MulPair(f[0], f[2]); MulPair(f[3], f[9]); MulPair(f[4], f[8]); MulPair(f[5], f[7]);
  }

  lemma SqColumnsSecond(f: seq<int>)
    requires |f| == 10
    ensures SqColumns(f)[3] == MulColumns(f, f)[3] && SqColumns(f)[4] == MulColumns(f, f)[4]
    ensures SqColumns(f)[5] == MulColumns(f, f)[5]
  {
    hide Mul64;
    MulPair(f[0], f[3]); MulPair(f[1], f[2]); MulPair(f[4], f[9]); MulPair(f[5], f[8]); MulPair(f[6], f[7]);
    MulPair(f[0], f[4]); MulPair(f[1], f[3]); MulPair(f[5], f[9]); MulPair(f[6], f[8]); MulPair(f[7], f[7]);
    MulPair(f[0], f[5]); MulPair(f[1], f[4]); MulPair(f[2], f[3]); MulPair(f[6], f[9]); MulPair(f[7], f[8]);
  }

  lemma SqColumnsThird(f: seq<int>)
    requires |f| == 10
    ensures SqColumns(f)[6] == MulColumns(f, f)[6] && SqColumns(f)[7] == MulColumns(f, f)[7]
  {
    hide Mul64;
    MulPair(f[0], f[6]); MulPair(f[1], f[5]); MulPair(f[2], f[4]); MulPair(f[7], f[9]); MulPair(f[0], f[7]);
    MulPair(f[1], f[6]); MulPair(f[2], f[5]); MulPair(f[3], f[4]); MulPair(f[8], f[9]);
  }

  lemma SqColumnsLast(f: seq<int>)
    requires |f| == 10
    ensures SqColumns(f)[8] == MulColumns(f, f)[8] && SqColumns(f)[9] == MulColumns(f, f)[9]
  {
    hide Mul64;
    MulPair(f[0], f[8]); MulPair(f[1], f[7]); MulPair(f[2], f[6]); MulPair(f[3], f[5]); MulPair(f[9], f[9]);
    MulPair(f[0], f[9]); MulPair(f[1], f[8]); MulPair(f[2], f[7]); MulPair(f[3], f[6]); MulPair(f[4], f[5]);
  }

  lemma SqColumnsAre(f: seq<int>)
    requires |f| == 10
    ensures SqColumns(f) == MulColumns(f, f)
  {
    hide SqColumns, MulColumns;
    SqColumnsFirst(f);
    SqColumnsSecond(f);
    SqColumnsThird(f);
    SqColumnsLast(f);
  }
}
