// fe_mul and fe_sq: the columns of the product and the twelve carries that make
// limbs of them again.
module FieldMul {
  import opened Basics
  import opened Powers
  import opened Field
  import opened FieldProduct

  // Inputs: |f| bounded by 1.65 * 2^26, 1.65 * 2^25, by turns.
  ghost predicate Loose(f: seq<int>) {
    Bounded(f, 110729625, 55364812)
  }

  // Outputs: |h| bounded by 1.01 * 2^25, 1.01 * 2^24, by turns.
  ghost predicate Tight(h: seq<int>) {
    Bounded(h, 33889976, 16944988)
  }

  // How large a product in column k can be: 1.65^2 * 2^52 and so on.
  function CellMax(k: nat, i: nat): nat
    requires k < 10 && i < 10
  {
    var once :=
      if k % 2 == 1 then 6130524870955500
      else if i % 2 == 0 then 12261049852640625
      else 6130524815590688;
    if i > k then 19 * once else once
  }

  function ColumnMax(k: nat, i: nat): nat
    requires k < 10 && i <= 10
    decreases 10 - i
  {
    if i == 10 then 0 else CellMax(k, i) + ColumnMax(k, i + 1)
  }

  lemma MulWithin(x: int, y: int, p: nat, q: nat)
    requires -(p as int) <= x <= p && -(q as int) <= y <= q
    ensures -((p * q) as int) <= Mul64(x, y) <= p * q
  {
    MulSpreads(p, q - y, 0);
    NonnegativeProduct(p - x, q + y);
    NonnegativeProduct(p + x, q - y);
    NonnegativeProduct(p - x, q - y);
    NonnegativeProduct(p + x, q + y);
    Expand(p, q, x, y);
  }

  lemma NonnegativeProduct(a: int, b: int)
    requires 0 <= a && 0 <= b
    ensures 0 <= Mul64(a, b)
  {
  }

  lemma Expand(p: int, q: int, x: int, y: int)
    ensures Mul64(p - x, q + y) + Mul64(p + x, q - y) == 2 * (p * q) - 2 * Mul64(x, y)
    ensures Mul64(p - x, q - y) + Mul64(p + x, q + y) == 2 * (p * q) + 2 * Mul64(x, y)
  {
  }

  lemma CellWithin(f: seq<int>, g: seq<int>, k: nat, i: nat)
    requires Loose(f) && Loose(g) && k < 10 && i < 10
    ensures -(CellMax(k, i) as int) <= Cell(f, g, k, i) <= CellMax(k, i)
  {
    hide Mul64;
    var j := Partner(k, i);
    var x := if i % 2 == 1 && j % 2 == 1 then 2 * f[i] else f[i];
    var y := if i > k then 19 * g[j] else g[j];
    if k % 2 == 1 {
      if i % 2 == 0 {
        MulWithin(x, y, 110729625, if i > k then 1051931428 else 55364812);
      } else {
        MulWithin(x, y, 55364812, if i > k then 2103862875 else 110729625);
      }
    } else if i % 2 == 0 {
      MulWithin(x, y, 110729625, if i > k then 2103862875 else 110729625);
    } else {
      MulWithin(x, y, 110729624, if i > k then 1051931428 else 55364812);
    }
  }

  // How large a column can be.
  lemma {:induction false} ColumnWithin(f: seq<int>, g: seq<int>, k: nat, i: nat)
    requires Loose(f) && Loose(g) && k < 10 && i <= 10
    ensures -(ColumnMax(k, i) as int) <= Column(f, g, k, i) <= ColumnMax(k, i)
    decreases 10 - i
  {
    hide Cell, CellMax, Loose;
    if i < 10 {
      CellWithin(f, g, k, i);
      ColumnWithin(f, g, k, i + 1);
    }
  }

  // 1.4 * 2^60 and 1.7 * 2^59
  lemma ColumnMaxima(k: nat)
    requires k < 10
    ensures ColumnMax(k, 0) <= if k % 2 == 0 then 1614090106449585766 else 979983278915819929
  {
    assert ColumnMax(k, 10) == 0;
    assert ColumnMax(k, 9) <= if k % 2 == 0 then 116479971496223072 else 116479972548154500;
    assert ColumnMax(k, 8) <= if k % 2 == 0 then 349439918696394947 else 232959945096309000;
    assert ColumnMax(k, 7) <= if k % 2 == 0 then 465919890192618019 else 349439917644463500;
    assert ColumnMax(k, 6) <= if k % 2 == 0 then 698879837392789894 else 465919890192618000;
    assert ColumnMax(k, 5) <= if k % 2 == 0 then 815359808889012966 else 582399862740772500;
    assert ColumnMax(k, 4) <= if k % 2 == 0 then 1048319756089184841 else 698879835288927000;
    assert ColumnMax(k, 3) <= if k % 2 == 0 then 1164799727585407913 else 815359807837081500;
    assert ColumnMax(k, 2) <= if k % 2 == 0 then 1397759674785579788 else 931839780385236000;
    assert ColumnMax(k, 1) <= if k % 2 == 0 then 1514239646281802860 else 937970305256191500;
    assert ColumnMax(k, 0) <= if k % 2 == 0 then 1526500696134443485 else 944100830127147000;
  }

  // ----- carrying

  // x >> 26 and x >> 25 on signed 64-bit integers
  function Shr26(x: int): (q: int)
    ensures q * 0x400_0000 <= x < q * 0x400_0000 + 0x400_0000
  {
    x / 0x400_0000
  }

  function Shr25(x: int): (q: int)
    ensures q * 0x200_0000 <= x < q * 0x200_0000 + 0x200_0000
  {
    x / 0x200_0000
  }

  // x & kTop38Bits and x & kTop39Bits
  function Top38(x: int): int {
    Shr26(x) * 0x400_0000
  }

  function Top39(x: int): int {
    Shr25(x) * 0x200_0000
  }

  // What goes up from a limb of 26 bits or of 25, and what stays.
  function Up26(x: int): int {
    Shr26(x + 0x200_0000)
  }

  function Up25(x: int): int {
    Shr25(x + 0x100_0000)
  }

  function Stay26(x: int): int {
    x - Top38(x + 0x200_0000)
  }

  function Stay25(x: int): int {
    x - Top39(x + 0x100_0000)
  }

  // The limbs after the first eight carries, and after all twelve.
  function FirstCarried(c: seq<int>): (v: seq<int>)
    requires |c| == 10
    ensures |v| == 10
  {
    var h1, h5 := c[1] + Up26(c[0]), c[5] + Up26(c[4]);
    var h2, h6 := c[2] + Up25(h1), c[6] + Up25(h5);
    var h3, h7 := c[3] + Up26(h2), c[7] + Up26(h6);
    [ Stay26(c[0]), Stay25(h1), Stay26(h2), Stay25(h3), Stay26(c[4]) + Up25(h3),
      Stay25(h5), Stay26(h6), Stay25(h7), c[8] + Up25(h7), c[9] ]
  }

  function Carried(c: seq<int>): (v: seq<int>)
    requires |c| == 10
    ensures |v| == 10
  {
    var v := FirstCarried(c);
    var h9 := v[9] + Up26(v[8]);
    var h0 := v[0] + Up25(h9) * 19;
    [ Stay26(h0), v[1] + Up26(h0), v[2], v[3], Stay26(v[4]), v[5] + Up26(v[4]), v[6], v[7], Stay26(v[8]), Stay25(h9) ]
  }

  // Ten limbs as large as the columns of a product can be.
  ghost predicate Columns64(c: seq<int>) {
    Bounded(c, 1614090106449585766, 979983278915819929)
  }

  // carry = low + (1 << 25); high += carry >> 26; low -= carry & kTop38Bits
  method Carry26(low: int64, high: int64) returns (low1: int64, high1: int64)
    requires -0x4000_0000_0000_0000 <= low < 0x4000_0000_0000_0000
    requires -0x4000_0000_0000_0000 <= high < 0x4000_0000_0000_0000
    ensures low1 + 0x400_0000 * high1 == low + 0x400_0000 * high && -0x200_0000 <= low1 < 0x200_0000
    ensures low1 == Stay26(low) && high1 == high + Up26(low)
  {
    var carry: int64 := low + 0x200_0000;
    high1 := high + Shr26(carry);
    var top: int64 := Top38(carry);
    low1 := low - top;
  }

  // carry = low + (1 << 24); high += carry >> 25; low -= carry & kTop39Bits
  method Carry25(low: int64, high: int64) returns (low1: int64, high1: int64)
    requires -0x4000_0000_0000_0000 <= low < 0x4000_0000_0000_0000
    requires -0x4000_0000_0000_0000 <= high < 0x4000_0000_0000_0000
    ensures low1 + 0x200_0000 * high1 == low + 0x200_0000 * high && -0x100_0000 <= low1 < 0x100_0000
    ensures low1 == Stay25(low) && high1 == high + Up25(low)
  {
    var carry: int64 := low + 0x100_0000;
    high1 := high + Shr25(carry);
    var top: int64 := Top39(carry);
    low1 := low - top;
  }

  // h[0] = (int32_t)h0 and so on
  method Store(h: array<int32>, v: seq<int32>)
    requires h.Length == 10 && |v| == 10
    modifies h
    ensures h[..] == v
  {
    h[0], h[1], h[2], h[3], h[4] := v[0], v[1], v[2], v[3], v[4];
    h[5], h[6], h[7], h[8], h[9] := v[5], v[6], v[7], v[8], v[9];
  }

  lemma Carry26Value(low: int, high: int)
    ensures Stay26(low) + 0x400_0000 * (high + Up26(low)) == low + 0x400_0000 * high
    ensures -0x200_0000 <= Stay26(low) < 0x200_0000
  {
  }

  lemma Carry25Value(low: int, high: int)
    ensures Stay25(low) + 0x200_0000 * (high + Up25(low)) == low + 0x200_0000 * high
    ensures -0x100_0000 <= Stay25(low) < 0x100_0000
  {
  }

  // The first eight carries: all but limbs 4, 8 and 9 are small then.
  lemma FirstCarriedValue(c: seq<int>)
    requires Columns64(c)
    ensures |c| == 10 && FieldValue(FirstCarried(c)) == FieldValue(c)
    ensures var v := FirstCarried(c);
      && -0x200_0000 <= v[0] <= 0x200_0000 && -0x100_0000 <= v[1] <= 0x100_0000
      && -0x200_0000 <= v[2] <= 0x200_0000 && -0x100_0000 <= v[3] <= 0x100_0000
      && -0x8_0000_0000 <= v[4] <= 0x8_0000_0000 && -0x100_0000 <= v[5] <= 0x100_0000
      && -0x200_0000 <= v[6] <= 0x200_0000 && -0x100_0000 <= v[7] <= 0x100_0000
      && -0x2000_0000_0000_0000 <= v[8] <= 0x2000_0000_0000_0000 && v[9] == c[9]
      && -979983278915819929 <= v[9] <= 979983278915819929
  {
    hide Up26, Up25, Stay26, Stay25;
    var h1, h5 := c[1] + Up26(c[0]), c[5] + Up26(c[4]);
    var h2, h6 := c[2] + Up25(h1), c[6] + Up25(h5);
    var h3, h7 := c[3] + Up26(h2), c[7] + Up26(h6);
    Carry26Value(c[0], c[1]);
    Carry26Value(c[4], c[5]);
    Carry25Value(h1, c[2]);
    Carry25Value(h5, c[6]);
    Carry26Value(h2, c[3]);
    Carry26Value(h6, c[7]);
    Carry25Value(h3, Stay26(c[4]));
    Carry25Value(h7, c[8]);
  }

  // All twelve: the one out of limb 9 comes back 19 times to limb 0.
  lemma CarriedValue(c: seq<int>) returns (k: int)
    requires Columns64(c)
    ensures |c| == 10 && FieldValue(Carried(c)) == FieldValue(c) - P * k
  {
    hide Up26, Up25, Stay26, Stay25, FirstCarried;
    FirstCarriedValue(c);
    var v := FirstCarried(c);
    k := LastCarries(v);
  }

  lemma LastCarries(v: seq<int>) returns (k: int)
    requires |v| == 10
    ensures var h9 := v[9] + Up26(v[8]);
      var h0 := v[0] + Up25(h9) * 19;
      FieldValue([ Stay26(h0), v[1] + Up26(h0), v[2], v[3], Stay26(v[4]), v[5] + Up26(v[4]), v[6], v[7], Stay26(v[8]),
                   Stay25(h9) ]) == FieldValue(v) - P * k
  {
    hide Up26, Up25, Stay26, Stay25;
    var h9 := v[9] + Up26(v[8]);
    var h0 := v[0] + Up25(h9) * 19;
    Carry26Value(v[4], v[5]);
    Carry26Value(v[8], v[9]);
    Carry25Value(h9, 0);
    Carry26Value(h0, v[1]);
    k := Up25(h9);
  }

  lemma CarriedTight(c: seq<int>)
    requires Columns64(c)
    ensures |c| == 10 && Tight(Carried(c))
  {
    hide Up26, Up25, Stay26, Stay25, FirstCarried, FieldValue;
    FirstCarriedValue(c);
    var v := FirstCarried(c);
    var h9 := v[9] + Up26(v[8]);
    var h0 := v[0] + Up25(h9) * 19;
    Carry26Value(v[4], v[5]);
    Carry26Value(v[8], v[9]);
    Carry25Value(h9, 0);
    Carry26Value(h0, v[1]);
    assert -16944988 <= v[1] + Up26(h0) <= 16944988 && -16944988 <= v[5] + Up26(v[4]) <= 16944988;
  }

  method CarryFirst(c: seq<int>) returns (v: seq<int64>)
    requires Columns64(c)
    ensures |c| == 10 && v == FirstCarried(c)
  {
    hide Up26, Up25, Stay26, Stay25, FieldValue;
    var h0: int64, h1: int64, h2: int64, h3: int64, h4: int64 := c[0], c[1], c[2], c[3], c[4];
    var h5: int64, h6: int64, h7: int64, h8: int64, h9: int64 := c[5], c[6], c[7], c[8], c[9];
    h0, h1 := Carry26(h0, h1);
    h4, h5 := Carry26(h4, h5);
    h1, h2 := Carry25(h1, h2);
    h5, h6 := Carry25(h5, h6);
    h2, h3 := Carry26(h2, h3);
    h6, h7 := Carry26(h6, h7);
    h3, h4 := Carry25(h3, h4);
    h7, h8 := Carry25(h7, h8);
    v := [h0, h1, h2, h3, h4, h5, h6, h7, h8, h9];
  }

  method CarryLimbs(c: seq<int>) returns (v: seq<int64>)
    requires Columns64(c)
    ensures |c| == 10 && v == Carried(c)
  {
    hide Up26, Up25, Stay26, Stay25, FirstCarried, FieldValue;
    v := CarryFirst(c);
    FirstCarriedValue(c);
    var h0, h1, h4, h5, h8, h9 := v[0], v[1], v[4], v[5], v[8], v[9];
    h4, h5 := Carry26(h4, h5);
    h8, h9 := Carry26(h8, h9);
    var carry9: int64;
    h9, carry9 := Carry25(h9, 0);
    var product: int64 := carry9 * 19;
    h0 := h0 + product;
    h0, h1 := Carry26(h0, h1);
    v := [h0, h1, v[2], v[3], h4, h5, v[6], v[7], h8, h9];
  }

  method CarryColumns(h: array<int32>, c: seq<int>) returns (ghost k: int)
    requires h.Length == 10 && Columns64(c)
    modifies h
    ensures FieldValue(h[..]) == FieldValue(c) - P * k
    ensures |c| == 10 && h[..] == Carried(c) && Tight(h[..])
  {
    hide FieldValue, Columns64, Carried;
    Columns64Length(c);
    k := CarriedValue(c);
    CarriedTight(c);
    var v := CarryLimbs(c);
    assert forall i | 0 <= i < 10 :: -0x8000_0000 <= v[i] < 0x8000_0000;
    Store(h, v);
  }

  lemma Columns64Length(c: seq<int>)
    requires Columns64(c)
    ensures |c| == 10
  {
  }

  // ----- fe_mul and fe_sq

  // The same element of the field.
  ghost predicate Congruent(a: int, b: int) {
    a % P == b % P
  }

  lemma CongruentIs(a: int, b: int, k: int)
    requires a == b - P * k
    ensures Congruent(a, b)
  {
    MulSpreads(P, b / P, -k);
    QuotientIs(a, P, b / P - k, b % P);
  }

  lemma QuotientIs(v: int, m: int, q: int, r: int)
    requires 0 <= r < m && v == m * q + r
    ensures v % m == r && v / m == q
  {
    var d := v / m - q;
    MulSpreads(m, v / m, -q);
    MulAtLeast(m, d);
  }

  lemma ColumnsFit(f: seq<int>, g: seq<int>)
    requires Loose(f) && Loose(g)
    ensures Columns64(MulColumns(f, g))
  {
    hide Loose, Column, ColumnMax, MulColumns;
    LooseLength(f);
    LooseLength(g);
    MulColumnsAre(f, g);
    forall k | 0 <= k < 10
      ensures if k % 2 == 0 then -1614090106449585766 <= MulColumns(f, g)[k] <= 1614090106449585766
              else -979983278915819929 <= MulColumns(f, g)[k] <= 979983278915819929
    {
      ColumnWithin(f, g, k, 0);
      ColumnMaxima(k);
    }
  }

  lemma LooseLength(f: seq<int>)
    requires Loose(f)
    ensures |f| == 10
  {
  }

  // ----- the same columns in 32 and 64 bits

  // A product in a column: ten of them, added in any order, fit 64 bits.
  predicate Small(x: int) {
    -0x800_0000_0000_0000 <= x <= 0x800_0000_0000_0000
  }

  // A limb or its double, and a limb or its multiple by 19 or 38.
  predicate Near(x: int) {
    -221459250 <= x <= 221459250
  }

  predicate Far(y: int) {
    -2103862875 <= y <= 2103862875
  }

  // x * (int64_t) y
  method Multiply(x: int32, y: int32) returns (p: int64)
    requires Near(x) && Far(y)
    ensures p == Mul64(x, y) && Small(p)
  {
    MulWithin(x, y, 221459250, 2103862875);
    p := Mul64(x, y);
  }

  // The multiples of limbs that are computed ahead.
  lemma Precomputed(f: seq<int>)
    requires Loose(f)
    ensures forall i | 0 <= i < 10 :: Near(f[i]) && Far(f[i]) && Near(2 * f[i]) && Far(2 * f[i]) && Far(19 * f[i])
    ensures forall i | 0 <= i < 10 && i % 2 == 1 :: Far(38 * f[i])
  {
  }

  // The multiples of limbs of f and g, where there are any.
  ghost predicate Ahead(f: seq<int>, f2: seq<int>, g: seq<int>, g19: seq<int>) {
    && |f| == |f2| == |g| == |g19| == 10 && Loose(f) && Loose(g)
    && forall i | 0 <= i < 10 :: (i % 2 == 1 ==> f2[i] == 2 * f[i]) && (0 < i ==> g19[i] == 19 * g[i])
  }

  method MulCell(f: seq<int32>, f2: seq<int32>, g: seq<int32>, g19: seq<int32>, k: nat, i: nat) returns (p: int64)
    requires Ahead(f, f2, g, g19) && k < 10 && i < 10
    ensures p == Cell(f, g, k, i) && Small(p)
  {
    hide Mul64, Loose, Near, Far, Small;
    Precomputed(f);
    Precomputed(g);
    var j := if i <= k then k - i else k + 10 - i;
    var x := if i % 2 == 1 && j % 2 == 1 then f2[i] else f[i];
    var y := if i > k then g19[j] else g[j];
    p := Multiply(x, y);
  }

  // One column of fe_mul, product by product from the left.
  method MulColumn(f: seq<int32>, f2: seq<int32>, g: seq<int32>, g19: seq<int32>, k: nat) returns (h: int64)
    requires Ahead(f, f2, g, g19) && k < 10
    ensures |f| == |g| == 10 && h == MulColumns(f, g)[k]
  {
    hide Cell, Loose, MulColumns;
    MulColumnsAre(f, g);
    h := 0;
    var i := 0;
    while i < 10
      invariant 0 <= i <= 10 && h + Column(f, g, k, i) == MulColumns(f, g)[k]
      invariant -0x800_0000_0000_0000 * i <= h <= 0x800_0000_0000_0000 * i
    {
      var product := MulCell(f, f2, g, g19, k, i);
      h := h + product;
      i := i + 1;
    }
  }

  method MulColumns64(f: seq<int32>, g: seq<int32>) returns (h: seq<int64>)
    requires |f| == |g| == 10 && Loose(f) && Loose(g)
    ensures h == MulColumns(f, g)
  {
    hide Loose, MulColumns;
    Precomputed(f);
    Precomputed(g);
    var g19: seq<int32> := [g[0], 19 * g[1], 19 * g[2], 19 * g[3], 19 * g[4],
                            19 * g[5], 19 * g[6], 19 * g[7], 19 * g[8], 19 * g[9]];
    var f2: seq<int32> := [f[0], 2 * f[1], f[2], 2 * f[3], f[4], 2 * f[5], f[6], 2 * f[7], f[8], 2 * f[9]];
    h := [];
    while |h| < 10
      invariant |h| <= 10 && forall k | 0 <= k < |h| :: h[k] == MulColumns(f, g)[k]
    {
      var column := MulColumn(f, f2, g, g19, |h|);
      h := h + [column];
    }
  }

  // A column of fe_sq, from the left.
  method Add5(a: int64, b: int64, c: int64, d: int64, e: int64) returns (h: int64)
    requires Small(a) && Small(b) && Small(c) && Small(d) && Small(e)
    ensures h == a + b + c + d + e && -0x2800_0000_0000_0000 <= h <= 0x2800_0000_0000_0000
  {
    h := a + b;
    h := h + c;
    h := h + d;
    h := h + e;
  }

  method Add6(a: int64, b: int64, c: int64, d: int64, e: int64, f: int64) returns (h: int64)
    requires Small(a) && Small(b) && Small(c) && Small(d) && Small(e) && Small(f)
    ensures h == a + b + c + d + e + f
  {
    h := Add5(a, b, c, d, e);
    h := h + f;
  }

  // f0_2 to f7_2; f5_38, f6_19, f7_38, f8_19 and f9_38
  ghost predicate Multiples(f: seq<int>, two: seq<int>, far: seq<int>) {
    && |f| == 10 && |two| == 8 && |far| == 5
    && (forall i | 0 <= i < 10 :: Near(f[i]) && Far(f[i]))
    && (forall i | 0 <= i < 8 :: two[i] == 2 * f[i] && Near(two[i]) && Far(two[i]))
    && far[0] == 38 * f[5] && far[1] == 19 * f[6] && far[2] == 38 * f[7] && far[3] == 19 * f[8] && far[4] == 38 * f[9]
    && forall i | 0 <= i < 5 :: Far(far[i])
  }

  method SqColumns0(f: seq<int32>, two: seq<int32>, far: seq<int32>) returns (h0: int64, h1: int64, h2: int64)
    requires Multiples(f, two, far)
    ensures h0 == SqColumns(f)[0] && h1 == SqColumns(f)[1] && h2 == SqColumns(f)[2]
  {
    hide Mul64, Near, Far, Small;
    var a := Multiply(f[0], f[0]);
    var b := Multiply(two[1], far[4]);
    var c := Multiply(two[2], far[3]);
    var d := Multiply(two[3], far[2]);
    var e := Multiply(two[4], far[1]);
    var g := Multiply(f[5], far[0]);
    h0 := Add6(a, b, c, d, e, g);
    a := Multiply(two[0], f[1]);
    b := Multiply(f[2], far[4]);
    c := Multiply(two[3], far[3]);
    d := Multiply(f[4], far[2]);
    e := Multiply(two[5], far[1]);
    h1 := Add5(a, b, c, d, e);
    a := Multiply(two[0], f[2]);
    b := Multiply(two[1], f[1]);
    c := Multiply(two[3], far[4]);
    d := Multiply(two[4], far[3]);
    e := Multiply(two[5], far[2]);
    g := Multiply(f[6], far[1]);
    h2 := Add6(a, b, c, d, e, g);
  }

  method SqColumns3(f: seq<int32>, two: seq<int32>, far: seq<int32>) returns (h3: int64, h4: int64, h5: int64)
    requires Multiples(f, two, far)
    ensures h3 == SqColumns(f)[3] && h4 == SqColumns(f)[4] && h5 == SqColumns(f)[5]
  {
    hide Mul64, Near, Far, Small;
    var a := Multiply(two[0], f[3]);
    var b := Multiply(two[1], f[2]);
    var c := Multiply(f[4], far[4]);
    var d := Multiply(two[5], far[3]);
    var e := Multiply(f[6], far[2]);
    h3 := Add5(a, b, c, d, e);
    a := Multiply(two[0], f[4]);
    b := Multiply(two[1], two[3]);
    c := Multiply(f[2], f[2]);
    d := Multiply(two[5], far[4]);
    e := Multiply(two[6], far[3]);
    var g := Multiply(f[7], far[2]);
    h4 := Add6(a, b, c, d, e, g);
    a := Multiply(two[0], f[5]);
    b := Multiply(two[1], f[4]);
    c := Multiply(two[2], f[3]);
    d := Multiply(f[6], far[4]);
    e := Multiply(two[7], far[3]);
    h5 := Add5(a, b, c, d, e);
  }

  method SqColumns6(f: seq<int32>, two: seq<int32>, far: seq<int32>) returns (h6: int64, h7: int64)
    requires Multiples(f, two, far)
    ensures h6 == SqColumns(f)[6] && h7 == SqColumns(f)[7]
  {
    hide Mul64, Near, Far, Small;
    var a := Multiply(two[0], f[6]);
    var b := Multiply(two[1], two[5]);
    var c := Multiply(two[2], f[4]);
    var d := Multiply(two[3], f[3]);
    var e := Multiply(two[7], far[4]);
    var g := Multiply(f[8], far[3]);
    h6 := Add6(a, b, c, d, e, g);
    a := Multiply(two[0], f[7]);
    b := Multiply(two[1], f[6]);
    c := Multiply(two[2], f[5]);
    d := Multiply(two[3], f[4]);
    e := Multiply(f[8], far[4]);
    h7 := Add5(a, b, c, d, e);
  }

  method SqColumns8(f: seq<int32>, two: seq<int32>, far: seq<int32>) returns (h8: int64, h9: int64)
    requires Multiples(f, two, far)
    ensures h8 == SqColumns(f)[8] && h9 == SqColumns(f)[9]
  {
    hide Mul64, Near, Far, Small;
    var a := Multiply(two[0], f[8]);
    var b := Multiply(two[1], two[7]);
    var c := Multiply(two[2], f[6]);
    var d := Multiply(two[3], two[5]);
    var e := Multiply(f[4], f[4]);
    var g := Multiply(f[9], far[4]);
    h8 := Add6(a, b, c, d, e, g);
    a := Multiply(two[0], f[9]);
    b := Multiply(two[1], f[8]);
    c := Multiply(two[2], f[7]);
    d := Multiply(two[3], f[6]);
    e := Multiply(two[4], f[5]);
    h9 := Add5(a, b, c, d, e);
  }

  method SqColumns64(f: seq<int32>) returns (h: seq<int64>)
    requires |f| == 10 && Loose(f)
    ensures h == SqColumns(f)
  {
    hide Loose, SqColumns;
    Precomputed(f);
    var two: seq<int32> :=
      [2 * f[0], 2 * f[1], 2 * f[2], 2 * f[3], 2 * f[4], 2 * f[5], 2 * f[6], 2 * f[7]];
    var far: seq<int32> := [38 * f[5], 19 * f[6], 38 * f[7], 19 * f[8], 38 * f[9]];
    var h0, h1, h2 := SqColumns0(f, two, far);
    var h3, h4, h5 := SqColumns3(f, two, far);
    var h6, h7 := SqColumns6(f, two, far);
    var h8, h9 := SqColumns8(f, two, far);
    h := [h0, h1, h2, h3, h4, h5, h6, h7, h8, h9];
  }

  // h = f * g, with every product and every partial sum in 64 bits
  method FeMul(h: array<int32>, f: array<int32>, g: array<int32>)
    requires h.Length == f.Length == g.Length == 10 && Loose(f[..]) && Loose(g[..])
    modifies h
    ensures Congruent(FieldValue(h[..]), FieldValue(old(f[..])) * FieldValue(old(g[..])))
    ensures Tight(h[..])
    ensures h[..] == Carried(MulColumns(old(f[..]), old(g[..])))
  {
    hide FieldValue, Carried, Congruent, MulColumns, Columns64, Tight, Loose;
    var c := MulColumns64(f[..], g[..]);
    ColumnsFit(f[..], g[..]);
    ghost var k0 := ProductValue(f[..], g[..]);
    ghost var n := FieldValue(f[..]) * FieldValue(g[..]);
    ghost var k1 := CarryColumns(h, c);
    CongruentIs(FieldValue(h[..]), n, k0 + k1);
  }

  // fe_sq makes the same columns and carries as fe_mul of f by itself, and so
  // the same limbs.
  method FeSq(h: array<int32>, f: array<int32>)
    requires h.Length == f.Length == 10 && Loose(f[..])
    modifies h
    ensures Congruent(FieldValue(h[..]), FieldValue(old(f[..])) * FieldValue(old(f[..])))
    ensures Tight(h[..])
    ensures h[..] == Carried(MulColumns(old(f[..]), old(f[..])))
  {
    hide FieldValue, Carried, Congruent, MulColumns, SqColumns, Columns64, Tight, Loose;
    var c := SqColumns64(f[..]);
    SqColumnsAre(f[..]);
    ColumnsFit(f[..], f[..]);
    ghost var k0 := ProductValue(f[..], f[..]);
    ghost var n := FieldValue(f[..]) * FieldValue(f[..]);
    ghost var k1 := CarryColumns(h, c);
    CongruentIs(FieldValue(h[..]), n, k0 + k1);
  }
}
