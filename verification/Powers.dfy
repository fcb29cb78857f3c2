// Powers of two, and natural numbers as strings of bits.
module Powers {

  function Pow2(k: nat): (r: nat)
    ensures 0 < r
  {
    if k == 0 then 1 else 2 * Pow2(k - 1)
  }

  lemma {:induction false} Pow2Adds(j: nat, k: nat)
    ensures Pow2(j + k) == Pow2(j) * Pow2(k)
  {
    if j > 0 {
      Pow2Adds(j - 1, k);
      assert 2 * (Pow2(j - 1) * Pow2(k)) == (2 * Pow2(j - 1)) * Pow2(k);
    }
  }

  lemma {:induction false} Pow2Grows(j: nat, k: nat)
    requires j <= k
    ensures Pow2(j) <= Pow2(k)
  {
    if j < k {
      Pow2Grows(j, k - 1);
    }
  }

  lemma PowerNext(k: nat)
    ensures Pow2(k + 1) == 2 * Pow2(k)
  {
  }

  lemma SmallPowers()
    ensures Pow2(0) == 1 && Pow2(1) == 2 && Pow2(2) == 4 && Pow2(3) == 8 && Pow2(4) == 16
    ensures Pow2(5) == 32 && Pow2(6) == 64 && Pow2(7) == 128 && Pow2(8) == 256
  {
    assert Pow2(7) == 128;
  }

  lemma LargePowers()
    ensures Pow2(21) == 0x20_0000 && Pow2(24) == 0x100_0000 && Pow2(25) == 0x200_0000 && Pow2(26) == 0x400_0000
    ensures Pow2(29) == 0x2000_0000 && Pow2(32) == 0x1_0000_0000
  {
    hide Pow2;
    SmallPowers();
    Pow2Adds(8, 8);
    Pow2Adds(16, 5);
    Pow2Adds(16, 8);
    Pow2Adds(24, 1);
    Pow2Adds(24, 2);
    Pow2Adds(24, 5);
    Pow2Adds(24, 8);
  }

  // The k low bits of v, and the others moved down.
  function Low(v: nat, k: nat): (r: nat)
    ensures r < Pow2(k)
  {
    v % Pow2(k)
  }

  function High(v: nat, k: nat): nat {
    Quotient(v, Pow2(k))
  }

  function Quotient(v: nat, m: nat): nat
    requires 0 < m
  {
    v / m
  }

  lemma MulGroups(a: int, b: int, c: int)
    ensures a * (b * c) == (a * b) * c
  {
  }

  lemma MulSpreads(a: int, b: int, c: int)
    ensures a * (b + c) == a * b + a * c
  {
  }

  lemma MulAtLeast(m: nat, d: int)
    ensures d >= 1 ==> m * d >= m
    ensures d <= -1 ==> m * d + m <= 0
  {
  }

  lemma DivisionIs(v: nat, m: nat, q: nat, r: nat)
    requires 0 < m && r < m && v == m * q + r
    ensures v / m == q && v % m == r
  {
    var d := v / m - q;
    assert m * d == m * (v / m) - m * q;
    MulAtLeast(m, d);
  }

  lemma DivTwice(v: nat, a: nat, b: nat)
    requires 0 < a && 0 < b
    ensures 0 < a * b && v / (a * b) == v / a / b
    ensures v % (a * b) == v % a + a * (v / a % b)
  {
    DivSplits(v, a, v / a, v % a);
    DivSplits(v / a, b, v / a / b, v / a % b);
    TwoDigits(v, a, b, v / a / b, v / a % b, v % a);
    DivisionIs(v, a * b, v / a / b, a * (v / a % b) + v % a);
  }

  lemma DivSplits(v: nat, m: nat, q: nat, r: nat)
    requires 0 < m && q == v / m && r == v % m
    ensures v == m * q + r && r < m
  {
  }

  lemma TwoDigits(v: nat, a: nat, b: nat, s: nat, t: nat, r: nat)
    requires v == a * (b * s + t) + r && t < b && r < a
    ensures v == (a * b) * s + (a * t + r) && 0 <= a * t + r < a * b
  {
    MulSpreads(a, b * s, t);
    MulGroups(a, b, s);
    MulSpreads(a, t, b - t);
    MulAtLeast(a, b - t);
  }

  lemma HighTwice(v: nat, j: nat, k: nat)
    ensures High(High(v, j), k) == High(v, j + k)
  {
    Pow2Adds(j, k);
    DivTwice(v, Pow2(j), Pow2(k));
  }

  lemma LowSplits(v: nat, j: nat, k: nat)
    ensures Low(v, j + k) == Low(v, j) + Pow2(j) * Low(High(v, j), k)
  {
    Pow2Adds(j, k);
    DivTwice(v, Pow2(j), Pow2(k));
  }

  // Taking bits off a number that was itself cut off higher up.
  lemma LowOfLow(v: nat, j: nat, k: nat)
    requires j <= k
    ensures Low(Low(v, k), j) == Low(v, j)
    ensures High(Low(v, k), j) == Low(High(v, j), k - j)
  {
    hide Pow2;
    LowSplits(v, j, k - j);
    DivisionIs(Low(v, k), Pow2(j), Low(High(v, j), k - j), Low(v, j));
  }
}
