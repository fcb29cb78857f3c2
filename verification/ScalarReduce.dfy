// Reduction modulo l of 24 limbs: the run of folds and carries at the end of
// x25519_sc_reduce and of sc_muladd.
module ScalarReduce {
  import opened Basics
  import opened Powers
  import opened ScalarLimbs

  lemma {:induction false} ZeroLimbs(s: seq<int>)
    requires forall i | 0 <= i < |s| :: s[i] == 0
    ensures LimbValue(s) == 0
  {
    if s != [] {
      ZeroLimbs(s[1..]);
    }
  }

  lemma {:induction false} LimbSplit(s: seq<int>, n: nat)
    requires n <= |s|
    ensures LimbValue(s) == LimbValue(s[..n]) + Weight(n) * LimbValue(s[n..])
    decreases n
  {
    if n == 0 {
      assert s[0..] == s;
    } else {
      LimbSplit(s[1..], n - 1);
      assert s[1..][..n - 1] == s[..n][1..] && s[1..][n - 1..] == s[n..];
      MulGroups(0x20_0000, Weight(n - 1), LimbValue(s[n..]));
    }
  }

  // Digits make a number of as many digits.
  lemma {:induction false} DigitsValue(d: seq<int>)
    requires forall j | 0 <= j < |d| :: 0 <= d[j] < 0x20_0000
    ensures 0 <= LimbValue(d) < Weight(|d|)
  {
    if d != [] {
      DigitsValue(d[1..]);
    }
  }

  // Limbs within b make a number not much more than b times the highest weight.
  lemma {:induction false} BoundedValue(d: seq<int>, b: int)
    requires 0 <= b && forall j | 0 <= j < |d| :: -b <= d[j] <= b
    ensures -(b * (Weight(|d|) - 1)) <= 0x1f_ffff * LimbValue(d) <= b * (Weight(|d|) - 1)
  {
    if d != [] {
      BoundedValue(d[1..], b);
      var w := Weight(|d| - 1);
      MulGroups(b, 0x20_0000, w);
      MulGroups(0x20_0000, b, w);
      MulSpreads(b, 0x20_0000 * w, -1);
      MulSpreads(b, w, -1);
    } else {
      assert b * (Weight(0) - 1) == 0;
    }
  }

  lemma Weights()
    ensures Weight(5) == 0x200_0000_0000_0000_0000_0000_0000
    ensures Weight(6) == 0x4000_0000_0000_0000_0000_0000_0000_0000
    ensures Weight(11) == 0x80_0000_0000_0000_0000_0000_0000_0000_0000_0000_0000_0000_0000_0000_0000
  {
  }

  lemma TopLimbs(s: seq<int>)
    requires |s| == 24 && forall j | 13 <= j < 24 :: s[j] == 0
    ensures LimbValue(s[11..]) == s[11] + 0x20_0000 * s[12]
  {
    hide LimbValue;
    ZeroLimbs(s[13..]);
    LimbFirst(s[12..]);
    LimbFirst(s[11..]);
    assert s[12..][1..] == s[13..] && s[11..][1..] == s[12..];
  }

  lemma LimbFirst(s: seq<int>)
    requires s != []
    ensures LimbValue(s) == s[0] + 0x20_0000 * LimbValue(s[1..])
  {
  }

  // Limbs balanced enough: less than 2^252 either way.
  lemma BalancedValue(s: seq<int>)
    requires |s| == 24 && forall j | 12 <= j < 24 :: s[j] == 0
    requires forall j | 0 <= j < 6 :: -0x100_0000_0000_0000 <= s[j] <= 0x100_0000_0000_0000
    requires forall j | 6 <= j < 11 :: -0x10_0000_0000 <= s[j] <= 0x10_0000_0000
    requires -0x10_0000 <= s[11] <= 0x10_0000
    ensures -0x1000_0000_0000_0000_0000_0000_0000_0000_0000_0000_0000_0000_0000_0000_0000_0000 < LimbValue(s)
    ensures LimbValue(s) < 0x1000_0000_0000_0000_0000_0000_0000_0000_0000_0000_0000_0000_0000_0000_0000_0000
  {
    hide LimbValue, Weight;
    Weights();
    LimbSplit(s, 6);
    LimbSplit(s[6..], 5);
    BoundedValue(s[..6], 0x100_0000_0000_0000);
    BoundedValue(s[6..][..5], 0x10_0000_0000);
    TopLimbs(s);
    assert s[6..][5..] == s[11..];
  }

  // With eleven digits below, the others are the quotient by 2^231.
  lemma QuotientLimbs(s: seq<int>)
    requires |s| == 24 && forall j | 13 <= j < 24 :: s[j] == 0
    requires forall j | 0 <= j < 11 :: 0 <= s[j] < 0x20_0000
    ensures var q := s[11] + 0x20_0000 * s[12];
      0 <= LimbValue(s) - 0x80_0000_0000_0000_0000_0000_0000_0000_0000_0000_0000_0000_0000_0000_0000 * q
        < 0x80_0000_0000_0000_0000_0000_0000_0000_0000_0000_0000_0000_0000_0000_0000
  {
    hide LimbValue, Weight;
    Weights();
    LimbSplit(s, 11);
    DigitsValue(s[..11]);
    TopLimbs(s);
  }

  // Limbs 18 to 23 folded down, and limbs 6 to 16 made small again.
  method ReduceHigh(s: array<int64>) returns (ghost k: int)
    requires s.Length == 24
    requires Within(s[..], 0, 23, 0x2000_0000) && Within(s[..], 23, 24, 0x4000_0000)
    modifies s
    ensures LimbValue(s[..]) == LimbValue(old(s[..])) - k * L
    ensures Within(s[..], 0, 18, 0x1_0000_0000) && Within(s[..], 18, 24, 0)
  {
    hide LimbValue;
    ghost var b := 0x2000_0000 + 6 * 997805 * 0x4000_0000;
    k := FoldSix(s, 23, 0x2000_0000, 0x4000_0000);
    RoundRun(s, 6, 6, b);
    RoundRun(s, 7, 5, b + b / 0x20_0000 + 1);
  }

  // Limbs 12 to 17 folded down, and limbs 0 to 11 made small again.
  method ReduceMiddle(s: array<int64>) returns (ghost k: int)
    requires s.Length == 24
    requires Within(s[..], 0, 18, 0x1_0000_0000) && Within(s[..], 18, 24, 0)
    modifies s
    ensures LimbValue(s[..]) == LimbValue(old(s[..])) - k * L
    ensures Within(s[..], 0, 13, 0x8_0000_0000) && Within(s[..], 11, 12, 0x10_0000) && Within(s[..], 13, 24, 0)
  {
    hide LimbValue;
    ghost var b := 0x1_0000_0000 + 6 * 997805 * 0x1_0000_0000;
    k := FoldSix(s, 17, 0x1_0000_0000, 0x1_0000_0000);
    RoundRun(s, 0, 6, b);
    RoundRun(s, 1, 6, b + b / 0x20_0000 + 1);
  }

  // Limb 12 folded down, carried up again and folded a last time. The value is
  // less than 2^252 either way by then, so that last fold is by 0 or -1.
  method ReduceLow(s: array<int64>) returns (ghost k: int, ghost last: int)
    requires s.Length == 24
    requires Within(s[..], 0, 13, 0x8_0000_0000) && Within(s[..], 11, 12, 0x10_0000) && Within(s[..], 13, 24, 0)
    modifies s
    ensures LimbValue(s[..]) == LimbValue(old(s[..])) - k * L
    ensures 0 <= LimbValue(s[..]) < L && (last == 0 || last == -1)
    ensures forall j | 0 <= j < 11 :: 0 <= s[..][j] < 0x20_0000
    ensures 0 <= s[..][11] <= 0x20_0000 && forall j | 12 <= j < 24 :: s[..][j] == 0
  {
    hide LimbValue, Weight, Weighed;
    UnitWeight(s[12]);
    k := s[12];
    FoldLast(s, 0x8_0000_0000);
    BalancedValue(s[..]);
    FloorRun(s, 12, 0x100_0000_0000_0000);
    QuotientLimbs(s[..]);
    UnitWeight(s[12]);
    last := s[..][12];
    k := k + last;
    FoldLast(s, 1);
    FloorRun(s, 11, 0x100_0000_0000_0000);
    QuotientLimbs(s[..]);
  }

  lemma UnitWeight(m: int)
    ensures Weighed(m, Weight(0)) == m
  {
  }

  // The fold of limb 12, on the limbs as one sequence.
  method FoldLast(s: array<int64>, ghost m: int)
    requires s.Length == 24
    requires -m <= s[..][12] <= m <= 0x10_0000_0000 && Within(s[..], 0, 6, 0x100_0000_0000)
    modifies s
    ensures LimbValue(s[..]) == LimbValue(old(s[..])) - old(s[..])[12] * L
    ensures Within(s[..], 0, 6, 0x100_0000_0000 + 997805 * m) && s[..][12] == 0
    ensures forall j | 6 <= j < 24 && j != 12 :: s[..][j] == old(s[..])[j]
  {
    hide LimbValue, Weight, Weighed;
    UnitWeight(s[12]);
    ghost var s0 := s[..];
    Fold(s, 12, m);
    assert forall j | 0 <= j < 24 :: s[..][j] == s[j] && s0[j] == old(s[j]);
  }

  lemma ModIs(v: int, n: int, k: int)
    requires v == n - k * L && 0 <= v < L
    ensures v == n % L
  {
    ModUnique(n, L, k, v);
  }

  lemma ModUnique(n: int, m: int, k: int, v: int)
    requires 0 <= v < m && n == v + k * m
    ensures n % m == v
  {
    var d := n / m - k;
    assert m * (n / m) + n % m == n;
    MulSpreads(m, n / m, -k);
    MulAtLeast(m, d);
  }

  // What the long run of folds and carries at the end of both functions does:
  // afterwards the limbs are the value modulo l, as digits.
  method ReduceLimbs(s: array<int64>)
    requires s.Length == 24
    requires Within(s[..], 0, 23, 0x2000_0000) && Within(s[..], 23, 24, 0x4000_0000)
    modifies s
    ensures LimbValue(s[..]) == LimbValue(old(s[..])) % L
    ensures forall j | 0 <= j < 11 :: 0 <= s[..][j] < 0x20_0000
    ensures 0 <= s[..][11] <= 0x20_0000 && forall j | 12 <= j < 24 :: s[..][j] == 0
  {
    hide LimbValue, Within;
    ghost var n := LimbValue(s[..]);
    ghost var k0 := ReduceHigh(s);
    ghost var k1 := ReduceMiddle(s);
    ghost var k2, last := ReduceLow(s);
    ModIs(LimbValue(s[..]), n, k0 + k1 + k2);
  }
}
