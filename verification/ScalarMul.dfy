// (a b + c) mod l: the schoolbook product of two scalars in limbs, reduced.
module ScalarMul {
  import opened Basics
  import opened Powers
  import opened BitStream
  import opened ScalarLimbs
  import opened ScalarReduce
  import opened ScalarBytes

  // The part of limb k of the product that the limbs of a from i on make.
  function LimbColumn(a: seq<nat>, b: seq<nat>, k: nat, i: nat): (c: nat)
    requires |a| == |b| == 12
    decreases 12 - i
  {
    if i >= 12 then 0 else LimbCell(a, b, k, i) + LimbColumn(a, b, k, i + 1)
  }

  function LimbCell(a: seq<nat>, b: seq<nat>, k: nat, i: nat): (c: nat)
    requires |a| == |b| == 12 && i < 12
  {
    if 0 <= k - i < 12 then Product(a[i], b[k - i]) else 0
  }

  function Product(x: nat, y: nat): nat {
    x * y
  }

  // All the limbs of a product, as far as the limbs of a from i on make them.
  function Columns(a: seq<nat>, b: seq<nat>, i: nat): (s: seq<nat>)
    requires |a| == |b| == 12 && i <= 12
    ensures |s| == 24
  {
    seq(24, k requires 0 <= k < 24 => LimbColumn(a, b, k, i))
  }

  // The row that limb i of a makes: b times it, i limbs up.
  function LimbRow(x: nat, b: seq<nat>, i: nat): (s: seq<nat>)
    requires |b| == 12 && i <= 12
    ensures |s| == 24
  {
    Zeros(i) + Scaled(x, b) + Zeros(12 - i)
  }

  function Zeros(n: nat): (s: seq<nat>)
    ensures |s| == n && forall i | 0 <= i < n :: s[i] == 0
  {
    seq(n, i => 0)
  }

  function Scaled(x: nat, b: seq<nat>): (s: seq<nat>)
    ensures |s| == |b| && forall i | 0 <= i < |b| :: s[i] == Product(x, b[i])
  {
    seq(|b|, i requires 0 <= i < |b| => Product(x, b[i]))
  }

  lemma {:induction false} ScaledValue(x: nat, b: seq<nat>)
    ensures LimbValue(Scaled(x, b)) == x * LimbValue(b)
  {
    if b != [] {
      ScaledValue(x, b[1..]);
      assert Scaled(x, b)[1..] == Scaled(x, b[1..]);
      MulSpreads(x, b[0], 0x20_0000 * LimbValue(b[1..]));
      MulGroups(x, 0x20_0000, LimbValue(b[1..]));
      MulGroups(0x20_0000, x, LimbValue(b[1..]));
    } else {
      assert x * 0 == 0;
    }
  }

  lemma LimbRowValue(x: nat, b: seq<nat>, i: nat)
    requires |b| == 12 && i <= 12
    ensures LimbValue(LimbRow(x, b, i)) == Weight(i) * (x * LimbValue(b))
  {
    hide LimbValue, Weight;
    var r := LimbRow(x, b, i);
    ScaledValue(x, b);
    LimbSplit(r, i);
    assert r[..i] == Zeros(i) && r[i..] == Scaled(x, b) + Zeros(12 - i);
    LimbSplit(r[i..], 12);
    assert r[i..][..12] == Scaled(x, b) && r[i..][12..] == Zeros(12 - i);
    ZeroLimbs(Zeros(i));
    ZeroLimbs(Zeros(12 - i));
    assert Weight(12) * 0 == 0;
  }

  lemma {:induction false} LimbSumValue(x: seq<nat>, y: seq<nat>, z: seq<nat>)
    requires |x| == |y| == |z| && forall k | 0 <= k < |x| :: z[k] == x[k] + y[k]
    ensures LimbValue(z) == LimbValue(x) + LimbValue(y)
  {
    if x != [] {
      LimbSumValue(x[1..], y[1..], z[1..]);
    }
  }

  lemma {:induction false} ColumnsValue(a: seq<nat>, b: seq<nat>, i: nat)
    requires |a| == |b| == 12 && i <= 12
    ensures LimbValue(Columns(a, b, i)) == Weight(i) * (LimbValue(a[i..]) * LimbValue(b))
    decreases 12 - i
  {
    hide LimbValue, Weight, Product;
    if i == 12 {
      ZeroLimbs(Columns(a, b, 12));
      NoLimbs(a[12..]);
      assert Weight(12) * (0 * LimbValue(b)) == 0;
    } else {
      ColumnsValue(a, b, i + 1);
      LimbRowValue(a[i], b, i);
      LimbSumValue(LimbRow(a[i], b, i), Columns(a, b, i + 1), Columns(a, b, i));
      LimbFirst(a[i..]);
      assert a[i..][1..] == a[i + 1..];
      WeightNext(i);
      RowAlgebra(Weight(i), a[i], LimbValue(a[i + 1..]), LimbValue(b));
    }
  }

  lemma RowAlgebra(w: int, x: int, rest: int, b: int)
    ensures w * (x * b) + (0x20_0000 * w) * (rest * b) == w * ((x + 0x20_0000 * rest) * b)
  {
    MulSpreads(b, x, 0x20_0000 * rest);
    MulGroups(0x20_0000, rest, b);
    MulGroups(w, 0x20_0000, rest * b);
    MulSpreads(w, x * b, 0x20_0000 * (rest * b));
  }

  lemma ProductValue(a: seq<nat>, b: seq<nat>)
    requires |a| == |b| == 12
    ensures LimbValue(Columns(a, b, 0)) == LimbValue(a) * LimbValue(b)
  {
    hide LimbValue;
    ColumnsValue(a, b, 0);
    assert a[0..] == a;
  }

  // ----- the limbs of a product as sc_muladd writes them out

  // s0 to s5
  function LowLimbs(a: seq<int>, b: seq<int>, c: seq<int>): (s: seq<int>)
    requires |a| == |b| == |c| == 12
    ensures |s| == 6
  {
    [ c[0] + a[0] * b[0],
      c[1] + a[0] * b[1] + a[1] * b[0],
      c[2] + a[0] * b[2] + a[1] * b[1] + a[2] * b[0],
      c[3] + a[0] * b[3] + a[1] * b[2] + a[2] * b[1] + a[3] * b[0],
      c[4] + a[0] * b[4] + a[1] * b[3] + a[2] * b[2] + a[3] * b[1] + a[4] * b[0],
      c[5] + a[0] * b[5] + a[1] * b[4] + a[2] * b[3] + a[3] * b[2] + a[4] * b[1] + a[5] * b[0] ]
  }

  // s6 to s11
  function MiddleLimbs(a: seq<int>, b: seq<int>, c: seq<int>): (s: seq<int>)
    requires |a| == |b| == |c| == 12
    ensures |s| == 6
  {
    [ c[6] + a[0] * b[6] + a[1] * b[5] + a[2] * b[4] + a[3] * b[3] + a[4] * b[2] + a[5] * b[1] + a[6] * b[0],
      c[7] + a[0] * b[7] + a[1] * b[6] + a[2] * b[5] + a[3] * b[4]
        + a[4] * b[3] + a[5] * b[2] + a[6] * b[1] + a[7] * b[0],
      c[8] + a[0] * b[8] + a[1] * b[7] + a[2] * b[6] + a[3] * b[5]
        + a[4] * b[4] + a[5] * b[3] + a[6] * b[2] + a[7] * b[1] + a[8] * b[0],
      c[9] + a[0] * b[9] + a[1] * b[8] + a[2] * b[7] + a[3] * b[6] + a[4] * b[5]
        + a[5] * b[4] + a[6] * b[3] + a[7] * b[2] + a[8] * b[1] + a[9] * b[0],
      c[10] + a[0] * b[10] + a[1] * b[9] + a[2] * b[8] + a[3] * b[7] + a[4] * b[6]
        + a[5] * b[5] + a[6] * b[4] + a[7] * b[3] + a[8] * b[2] + a[9] * b[1] + a[10] * b[0],
      c[11] + a[0] * b[11] + a[1] * b[10] + a[2] * b[9] + a[3] * b[8] + a[4] * b[7] + a[5] * b[6]
        + a[6] * b[5] + a[7] * b[4] + a[8] * b[3] + a[9] * b[2] + a[10] * b[1] + a[11] * b[0] ]
  }

  // s12 to s23
  function HighLimbsOf(a: seq<int>, b: seq<int>): (s: seq<int>)
    requires |a| == |b| == 12
    ensures |s| == 12
  {
    [ a[1] * b[11] + a[2] * b[10] + a[3] * b[9] + a[4] * b[8] + a[5] * b[7] + a[6] * b[6]
        + a[7] * b[5] + a[8] * b[4] + a[9] * b[3] + a[10] * b[2] + a[11] * b[1],
      a[2] * b[11] + a[3] * b[10] + a[4] * b[9] + a[5] * b[8] + a[6] * b[7]
        + a[7] * b[6] + a[8] * b[5] + a[9] * b[4] + a[10] * b[3] + a[11] * b[2],
      a[3] * b[11] + a[4] * b[10] + a[5] * b[9] + a[6] * b[8] + a[7] * b[7]
        + a[8] * b[6] + a[9] * b[5] + a[10] * b[4] + a[11] * b[3],
      a[4] * b[11] + a[5] * b[10] + a[6] * b[9] + a[7] * b[8]
        + a[8] * b[7] + a[9] * b[6] + a[10] * b[5] + a[11] * b[4],
      a[5] * b[11] + a[6] * b[10] + a[7] * b[9] + a[8] * b[8] + a[9] * b[7] + a[10] * b[6] + a[11] * b[5],
      a[6] * b[11] + a[7] * b[10] + a[8] * b[9] + a[9] * b[8] + a[10] * b[7] + a[11] * b[6],
      a[7] * b[11] + a[8] * b[10] + a[9] * b[9] + a[10] * b[8] + a[11] * b[7],
      a[8] * b[11] + a[9] * b[10] + a[10] * b[9] + a[11] * b[8],
      a[9] * b[11] + a[10] * b[10] + a[11] * b[9],
      a[10] * b[11] + a[11] * b[10],
      a[11] * b[11],
      0 ]
  }

  lemma LowLimbsAreColumns(a: seq<nat>, b: seq<nat>, c: seq<nat>)
    requires |a| == |b| == |c| == 12
    ensures forall k | 0 <= k < 6 :: LowLimbs(a, b, c)[k] == c[k] + Columns(a, b, 0)[k]
  {
  }

  lemma MiddleLimbsAreColumns(a: seq<nat>, b: seq<nat>, c: seq<nat>)
    requires |a| == |b| == |c| == 12
    ensures forall k | 0 <= k < 6 :: MiddleLimbs(a, b, c)[k] == c[6 + k] + Columns(a, b, 0)[6 + k]
  {
    forall k | 0 <= k < 6
      ensures MiddleLimbs(a, b, c)[k] == c[6 + k] + LimbColumn(a, b, 6 + k, 0)
    {
      if k < 3 {
        Columns6To8(a, b, c, k);
      } else {
        Columns9To11(a, b, c, k);
      }
    }
  }

  lemma Columns6To8(a: seq<nat>, b: seq<nat>, c: seq<nat>, k: nat)
    requires |a| == |b| == |c| == 12 && k < 3
    ensures MiddleLimbs(a, b, c)[k] == c[6 + k] + LimbColumn(a, b, 6 + k, 0)
  {
    if k == 0 {
    } else if k == 1 {
    } else {
    }
  }

  lemma Columns9To11(a: seq<nat>, b: seq<nat>, c: seq<nat>, k: nat)
    requires |a| == |b| == |c| == 12 && 3 <= k < 6
    ensures MiddleLimbs(a, b, c)[k] == c[6 + k] + LimbColumn(a, b, 6 + k, 0)
  {
    if k == 3 {
    } else if k == 4 {
    } else {
    }
  }

  lemma HighLimbsAreColumns(a: seq<nat>, b: seq<nat>)
    requires |a| == |b| == 12
    ensures forall k | 0 <= k < 12 :: HighLimbsOf(a, b)[k] == Columns(a, b, 0)[12 + k]
  {
    forall k | 0 <= k < 12
      ensures HighLimbsOf(a, b)[k] == LimbColumn(a, b, 12 + k, 0)
    {
      if k < 4 {
        Columns12To15(a, b, k);
      } else {
        Columns16To23(a, b, k);
      }
    }
  }

  lemma Columns12To15(a: seq<nat>, b: seq<nat>, k: nat)
    requires |a| == |b| == 12 && k < 4
    ensures HighLimbsOf(a, b)[k] == LimbColumn(a, b, 12 + k, 0)
  {
    if k == 0 {
    } else if k == 1 {
    } else if k == 2 {
    } else {
    }
  }

  lemma Columns16To23(a: seq<nat>, b: seq<nat>, k: nat)
    requires |a| == |b| == 12 && 4 <= k < 12
    ensures HighLimbsOf(a, b)[k] == LimbColumn(a, b, 12 + k, 0)
  {
  }

  // Limbs of 21 bits, the last one of up to 25.
  ghost predicate Loaded(a: seq<nat>) {
    |a| == 12 && (forall i | 0 <= i < 11 :: a[i] < 0x20_0000) && a[11] < 0x200_0000
  }

  lemma ProductBound(x: nat, y: nat, p: nat, q: nat)
    requires x <= p && y <= q
    ensures Product(x, y) <= p * q
  {
    MulMonotone(x, y, q);
    MulMonotone(q, x, p);
  }

  lemma LimbCellBound(a: seq<nat>, b: seq<nat>, k: nat, i: nat)
    requires Loaded(a) && Loaded(b) && i < 12
    ensures LimbCell(a, b, k, i) <= if k == 22 then 0x4_0000_0000_0000 else 0x4000_0000_0000
    ensures k == 22 && i < 11 ==> LimbCell(a, b, k, i) == 0
  {
    hide Product;
    if 0 <= k - i < 12 {
      ProductBound(a[i], b[k - i], if i == 11 then 0x200_0000 else 0x20_0000, if k - i == 11 then 0x200_0000
        else 0x20_0000);
    }
  }

  lemma {:induction false} LimbColumnBound(a: seq<nat>, b: seq<nat>, k: nat, i: nat)
    requires Loaded(a) && Loaded(b) && i <= 12
    ensures LimbColumn(a, b, k, i) <= if k == 22 then 0x4_0000_0000_0000 else (12 - i) * 0x4000_0000_0000
    decreases 12 - i
  {
    hide LimbCell;
    if i < 12 {
      LimbCellBound(a, b, k, i);
      LimbColumnBound(a, b, k, i + 1);
      if i == 11 {
        assert LimbColumn(a, b, k, 12) == 0;
      }
    }
  }

  function AllLimbs(a: seq<nat>, b: seq<nat>, c: seq<nat>): (s: seq<int>)
    requires |a| == |b| == |c| == 12
    ensures |s| == 24
  {
    LowLimbs(a, b, c) + MiddleLimbs(a, b, c) + HighLimbsOf(a, b)
  }

  lemma AllLimbsAt(a: seq<nat>, b: seq<nat>, c: seq<nat>, k: nat)
    requires |a| == |b| == |c| == 12 && k < 24
    ensures AllLimbs(a, b, c)[k] == (if k < 12 then c[k] else 0) + LimbColumn(a, b, k, 0)
  {
    hide LowLimbs, MiddleLimbs, HighLimbsOf, LimbColumn;
    if k < 6 {
      LowLimbsAreColumns(a, b, c);
    } else if k < 12 {
      MiddleLimbsAreColumns(a, b, c);
      assert AllLimbs(a, b, c)[k] == MiddleLimbs(a, b, c)[k - 6];
    } else {
      HighLimbsAreColumns(a, b);
      assert AllLimbs(a, b, c)[k] == HighLimbsOf(a, b)[k - 12];
    }
  }

  lemma LastIsZero(a: seq<nat>, b: seq<nat>, c: seq<nat>)
    requires |a| == |b| == |c| == 12
    ensures AllLimbs(a, b, c)[23] == 0
  {
    assert AllLimbs(a, b, c)[23] == HighLimbsOf(a, b)[11];
  }

  // The limbs of a b + c, and how large they can be.
  lemma ProductLimbs(a: seq<nat>, b: seq<nat>, c: seq<nat>)
    requires Loaded(a) && Loaded(b) && Loaded(c)
    ensures LimbValue(AllLimbs(a, b, c)) == LimbValue(a) * LimbValue(b) + LimbValue(c)
    ensures forall k | 0 <= k < 24 && k != 22 :: 0 <= AllLimbs(a, b, c)[k] <= 0x3_0000_0200_0000
    ensures 0 <= AllLimbs(a, b, c)[22] <= 0x4_0000_0000_0000 && AllLimbs(a, b, c)[23] == 0
  {
    hide AllLimbs, LimbValue, LimbColumn;
    var p := Columns(a, b, 0);
    var c24: seq<nat> := c + Zeros(12);
    forall k | 0 <= k < 24
      ensures 0 <= AllLimbs(a, b, c)[k] <= if k == 22 then 0x4_0000_0000_0000 else 0x3_0000_0200_0000
      ensures AllLimbs(a, b, c)[k] == c24[k] + p[k]
    {
      AllLimbsAt(a, b, c, k);
      LimbColumnBound(a, b, k, 0);
    }
    LastIsZero(a, b, c);
    LimbSumValue(c24, p, AllLimbs(a, b, c));
    ProductValue(a, b);
    LimbSplit(c24, 12);
    assert c24[..12] == c && c24[12..] == Zeros(12);
    ZeroLimbs(Zeros(12));
    assert Weight(12) * 0 == 0;
  }

  // One limb of a b + c, product by product from the left: what is added up is
  // never more than the whole, and the whole fits.
  method ProductLimb(a: seq<nat>, b: seq<nat>, c: seq<nat>, k: nat) returns (t: int64)
    requires Loaded(a) && Loaded(b) && Loaded(c) && k < 24
    ensures t == AllLimbs(a, b, c)[k]
  {
    hide Product, AllLimbs, LimbCell;
    AllLimbsAt(a, b, c, k);
    LimbColumnBound(a, b, k, 0);
    t := if k < 12 then c[k] else 0;
    var i := 0;
    while i < 12
      invariant 0 <= i <= 12 && 0 <= t && t + LimbColumn(a, b, k, i) == AllLimbs(a, b, c)[k]
    {
      if i <= k < i + 12 {
        LimbCellBound(a, b, k, i);
        LimbCellIs(a, b, k, i);
        var product: int64 := Product(a[i], b[k - i]);
        t := t + product;
      } else {
        LimbCellIs(a, b, k, i);
      }
      i := i + 1;
    }
  }

  lemma LimbCellIs(a: seq<nat>, b: seq<nat>, k: nat, i: nat)
    requires |a| == |b| == 12 && i < 12
    ensures LimbCell(a, b, k, i) == if i <= k < i + 12 then Product(a[i], b[k - i]) else 0
  {
  }

  // s0 to s23
  method AddProduct(a: seq<nat>, b: seq<nat>, c: seq<nat>) returns (s: seq<int64>)
    requires Loaded(a) && Loaded(b) && Loaded(c)
    ensures s == AllLimbs(a, b, c)
  {
    hide AllLimbs;
    s := [];
    while |s| < 24
      invariant |s| <= 24 && forall k | 0 <= k < |s| :: s[k] == AllLimbs(a, b, c)[k]
    {
      var t := ProductLimb(a, b, c, |s|);
      s := s + [t];
    }
  }
}
