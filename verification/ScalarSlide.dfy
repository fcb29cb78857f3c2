// slide: a scalar as 256 signed digits, odd and at most 15 either way, no two
// of them closer than five places.
module ScalarSlide {
  import opened Basics
  import opened Powers
  import opened BitStream
  import opened ByteStrings

  // r[0] + 2 r[1] + 4 r[2] + ...
  function DigitValue(r: seq<int>): int {
    if r == [] then 0 else r[0] + 2 * DigitValue(r[1..])
  }

  function Scale(d: int, k: nat): int {
    d * Pow2(k)
  }

  lemma {:induction false} DigitAdd(r: seq<int>, j: nat, d: int)
    requires j < |r|
    ensures DigitValue(r[j := r[j] + d]) == DigitValue(r) + Scale(d, j)
    decreases j
  {
    var t := r[j := r[j] + d];
    if j == 0 {
      assert t[1..] == r[1..];
    } else {
      assert t[1..] == r[1..][j - 1 := r[1..][j - 1] + d];
      DigitAdd(r[1..], j - 1, d);
      MulGroups(d, 2, Pow2(j - 1));
      MulGroups(2, d, Pow2(j - 1));
    }
  }

  // A digit taken from place i + b and put back as 2^b of them at place i.
  lemma MoveDown(r: seq<int>, i: nat, b: nat, d: int)
    requires 0 < b && i + b < |r|
    ensures DigitValue(r[i := r[i] + Scale(d, b)][i + b := r[i + b] - d]) == DigitValue(r)
  {
    hide DigitValue, Pow2, Scale;
    var t := r[i := r[i] + Scale(d, b)];
    DigitAdd(r, i, Scale(d, b));
    DigitAdd(t, i + b, -d);
    assert t[i + b] + -d == r[i + b] - d;
    ScaleTwice(d, b, i);
  }

  lemma ScaleTwice(d: int, b: nat, i: nat)
    ensures Scale(Scale(d, b), i) + Scale(-d, i + b) == 0
  {
    hide Pow2;
    Pow2Adds(b, i);
    MulGroups(d, Pow2(b), Pow2(i));
  }

  // ----- what the digits are to be

  // The digit for an odd v: the odd number nearest to 0 that is v modulo 32.
  function Nearest(v: nat): (d: int)
    ensures -16 <= d <= v
  {
    if v % 32 < 16 then v % 32 else v % 32 - 32
  }

  lemma NearestOdd(v: nat)
    requires v % 2 == 1
    ensures -15 <= Nearest(v) <= 15 && Nearest(v) % 2 == 1
    ensures exists k: nat :: v - Nearest(v) == 32 * k
  {
    DivSplits(v, 32, v / 32, v % 32);
    var k := if v % 32 < 16 then v / 32 else v / 32 + 1;
    assert v - Nearest(v) == 32 * k;
  }

  // The digits of v in n places, lowest first. What is left of v after a digit
  // is cut off at n places, like the array.
  function Recoded(v: nat, n: nat): (r: seq<int>)
    ensures |r| == n
    decreases n
  {
    if n == 0 then []
    else if v % 2 == 0 then [0] + Recoded(v / 2, n - 1)
    else [Nearest(v)] + Recoded(Low((v - Nearest(v)) / 2, n - 1), n - 1)
  }

  // Zero, or odd and within 15 with four zeros after it; near the end of the
  // array, where there are fewer places for zeros, positive.
  predicate DigitOk(r: seq<int>, j: nat)
    requires j < |r|
  {
    r[j] == 0 ||
    (&& -15 <= r[j] <= 15 && r[j] % 2 == 1
     && (forall t | j < t <= j + 4 && t < |r| :: r[t] == 0)
     && (j + 4 >= |r| ==> 0 < r[j] < Pow2(|r| - j)))
  }

  lemma FourZeros(r: seq<int>)
    requires |r| >= 5 && DigitOk(r, 0) && r[0] != 0
    ensures DigitValue(r) == r[0] + 32 * DigitValue(r[5..])
  {
    DigitFirst(r, 0);
    DigitFirst(r, 1);
    DigitFirst(r, 2);
    DigitFirst(r, 3);
    DigitFirst(r, 4);
    assert r[0..] == r;
  }

  lemma DigitFirst(r: seq<int>, j: nat)
    requires j < |r|
    ensures DigitValue(r[j..]) == r[j] + 2 * DigitValue(r[j + 1..])
  {
    assert r[j..][1..] == r[j + 1..];
  }

  lemma {:induction false} ZeroDigits(r: seq<int>)
    requires forall j | 0 <= j < |r| :: r[j] == 0
    ensures DigitValue(r) == 0
  {
    if r != [] {
      ZeroDigits(r[1..]);
    }
  }

  lemma DigitsOkRest(r: seq<int>)
    requires r != [] && forall j | 0 <= j < |r| :: DigitOk(r, j)
    ensures forall j | 0 <= j < |r| - 1 :: DigitOk(r[1..], j)
  {
    hide Pow2;
    forall j | 0 <= j < |r| - 1 ensures DigitOk(r[1..], j) {
      assert DigitOk(r, j + 1);
      assert forall t | j < t <= j + 4 && t < |r[1..]| :: r[1..][t] == r[t + 1];
    }
  }

  // The first digit is forced by the value modulo 2^n.
  lemma FirstDigit(r: seq<int>, v: nat, q: int)
    requires r != [] && DigitOk(r, 0) && v < Pow2(|r|) && DigitValue(r) == v + Scale(q, |r|)
    ensures r[0] == if v % 2 == 0 then 0 else Nearest(v)
  {
    hide Pow2;
    var n := |r|;
    if n >= 5 {
      Pow2Adds(n - 5, 5);
      MulGroups(q, Pow2(n - 5), 32);
      SmallPowers();
      if r[0] != 0 {
        FourZeros(r);
        NearestIs(v, r[0], q * Pow2(n - 5) - DigitValue(r[5..]));
      } else {
        EvenIs(v, DigitValue(r[1..]) - 16 * (q * Pow2(n - 5)));
      }
    } else {
      SmallPowers();
      Pow2Adds(n - 1, 1);
      MulGroups(q, Pow2(n - 1), 2);
      if r[0] != 0 {
        ZeroDigits(r[1..]);
        SmallDigit(r[0], v, q, Pow2(n));
      } else {
        EvenIs(v, DigitValue(r[1..]) - q * Pow2(n - 1));
      }
    }
  }

  lemma NearestIs(v: nat, d: int, k: int)
    requires v == d - 32 * k && -15 <= d <= 15 && d % 2 == 1
    ensures v % 2 == 1 && d == Nearest(v)
  {
    if d > 0 {
      DivisionIs(v, 32, -k, d);
    } else {
      DivisionIs(v, 32, -k - 1, 32 + d);
    }
  }

  lemma EvenIs(v: nat, k: int)
    requires v == 2 * k
    ensures v % 2 == 0
  {
  }

  lemma SmallDigit(d: int, v: nat, q: int, p: nat)
    requires d == v + q * p && 0 < d < p && v < p <= 16 && d % 2 == 1
    ensures v == d && v % 2 == 1 && d == Nearest(v)
  {
    MulAtLeast(p, q);
    assert q * p == p * q;
  }

  // Digits that are as they should be are determined by what they amount to,
  // modulo 2^n.
  lemma {:induction false} RecodedUnique(r: seq<int>, v: nat, q: int)
    requires forall j | 0 <= j < |r| :: DigitOk(r, j)
    requires v < Pow2(|r|) && DigitValue(r) == v + Scale(q, |r|)
    ensures r == Recoded(v, |r|)
    decreases |r|
  {
    hide Pow2, DigitOk, Low, Scale, Nearest;
    if r != [] {
      var n, d := |r|, r[0];
      FirstDigit(r, v, q);
      DigitsOkRest(r);
      var w := Halved(v, d);
      RestModulo(DigitValue(r[1..]), w, q, n - 1);
      RecodedUnique(r[1..], Low(w, n - 1), q + High(w, n - 1));
      if v % 2 == 0 {
        PowerNext(n - 1);
        LowAll(w, n - 1);
      }
      assert r == [d] + r[1..];
    }
  }

  lemma Halved(v: nat, d: int) returns (w: nat)
    requires d == if v % 2 == 0 then 0 else Nearest(v)
    ensures w == (v - d) / 2 && v - d == 2 * w
  {
    hide Nearest;
    DivSplits(v, 2, v / 2, v % 2);
    if v % 2 == 1 {
      NearestOdd(v);
      var k: nat :| v - Nearest(v) == 32 * k;
      w := 16 * k;
    } else {
      w := v / 2;
    }
  }

  // What is left after the first digit, cut off at one place fewer.
  lemma RestModulo(rest: int, w: nat, q: int, n: nat)
    requires 2 * rest == 2 * w + Scale(q, n + 1)
    ensures rest == Low(w, n) + Scale(q + High(w, n), n) && Low(w, n) < Pow2(n)
  {
    hide Pow2;
    PowerNext(n);
    MulGroups(q, 2, Pow2(n));
    MulGroups(2, q, Pow2(n));
    LowHigh(w, n);
    MulSpreads(Pow2(n), q, High(w, n));
  }

  lemma Step(v: nat, n: nat)
    requires 1 <= n && v < Pow2(n) && v % 2 == 1
    ensures var w := (v - Nearest(v)) / 2; v == Nearest(v) + 2 * w && 0 <= w < Pow2(n - 1) + 8
    ensures v <= Pow2(n - 1) ==> (v - Nearest(v)) / 2 <= Pow2(n - 1) / 2
    ensures n == 1 ==> v == 1
  {
    hide Pow2, Nearest;
    NearestOdd(v);
    PowerNext(n - 1);
    SmallPowers();
    if n > 5 {
      Pow2Adds(n - 6, 5);
      SmallPowers();
      RoundUp(v, Pow2(n - 6));
    } else if n == 5 {
      assert v <= 16 ==> v < 16;
    } else {
      Pow2Grows(n, 4);
    }
  }

  // Rounding to the nearest multiple of 32 does not pass a multiple of 32.
  lemma RoundUp(v: nat, m: nat)
    requires v % 2 == 1
    ensures v <= 32 * m ==> v - Nearest(v) <= 32 * m
  {
    hide Nearest;
    NearestOdd(v);
    var k: nat :| v - Nearest(v) == 32 * k;
    assert v <= 32 * m ==> k <= m;
  }

  // With the top bit clear, nothing is lost at the end of the array.
  lemma {:induction false} RecodedExact(v: nat, n: nat)
    requires 1 <= n && v <= Pow2(n - 1)
    ensures DigitValue(Recoded(v, n)) == v
    decreases n
  {
    hide Pow2, Low, Nearest;
    PowerNext(n - 1);
    if n == 1 {
      SmallPowers();
      OnePlace(v);
    } else {
      PowerNext(n - 2);
      var w := if v % 2 == 0 then v / 2 else (v - Nearest(v)) / 2;
      if v % 2 == 1 {
        Step(v, n);
        LowAll(w, n - 1);
      }
      RecodedExact(w, n - 1);
      RecodedFirst(v, n);
    }
  }

  lemma RecodedFirst(v: nat, n: nat)
    requires 1 <= n && v < Pow2(n)
    ensures v % 2 == 0 ==> DigitValue(Recoded(v, n)) == 2 * DigitValue(Recoded(v / 2, n - 1))
    ensures v % 2 == 1 ==>
      DigitValue(Recoded(v, n)) == Nearest(v) + 2 * DigitValue(Recoded(Low((v - Nearest(v)) / 2, n - 1), n - 1))
  {
    hide Pow2, Low, Nearest;
    var r := Recoded(v, n);
    assert r[1..] == if v % 2 == 0 then Recoded(v / 2, n - 1) else Recoded(Low((v - Nearest(v)) / 2, n - 1), n - 1);
  }

  lemma OnePlace(v: nat)
    requires v <= 1
    ensures DigitValue(Recoded(v, 1)) == v
  {
    hide Low, Nearest;
    assert Nearest(1) == 1 by { NearestIs(1, 1, 0); }
    var r := Recoded(v, 1);
    assert DigitValue(r[1..]) == 0;
  }

  // Some digit of v is taken off with a carry that finds no place before the end.
  predicate CarryRunsOff(v: nat, n: nat) {
    n > 0 &&
    if v % 2 == 0 then CarryRunsOff(v / 2, n - 1)
    else
      var w := (v - Nearest(v)) / 2;
      w >= Pow2(n - 1) || CarryRunsOff(w, n - 1)
  }

  // The digits amount to the scalar, but for the carry that ran off.
  lemma {:induction false} RecodedValue(v: nat, n: nat)
    requires v < Pow2(n)
    ensures DigitValue(Recoded(v, n)) == v - if CarryRunsOff(v, n) then Pow2(n) else 0
    ensures DigitValue(Recoded(v, n)) == v <==> !CarryRunsOff(v, n)
    decreases n
  {
    hide Pow2, Low, Nearest, Recoded, DigitValue;
    if n == 0 {
      SmallPowers();
      NoPlaces(v);
    } else {
      PowerNext(n - 1);
      RecodedFirst(v, n);
      if v % 2 == 0 {
        RecodedValue(v / 2, n - 1);
      } else {
        Step(v, n);
        var w := (v - Nearest(v)) / 2;
        if w < Pow2(n - 1) {
          LowAll(w, n - 1);
          RecodedValue(w, n - 1);
        } else {
          Wrapped(v, n, w);
          RecodedExact(w - Pow2(n - 1), n - 1);
        }
      }
    }
  }

  // ----- the least scalar with a carry that runs off

  function Least(n: nat): (v: nat)
    ensures v >= 1
  {
    if n == 0 then 1 else if n % 5 == 0 then 32 * Least(n - 5) - 15 else 2 * Least(n - 1)
  }

  lemma {:induction false} LeastStep(n: nat)
    requires 5 <= n
    ensures Least(n) <= 32 * Least(n - 5) - 15
    ensures n % 5 != 0 ==> Least(n) == 2 * Least(n - 1)
  {
    if n % 5 != 0 {
      LeastStep(n - 1);
    }
  }

  lemma LeastBelow(n: nat)
    requires n < 5
    ensures Least(n) == Pow2(n) <= 16
  {
    hide Pow2;
    SmallPowers();
    assert Least(0) == 1;
    assert Least(1) == 2;
    assert Least(2) == 4;
    assert Least(3) == 8;
    assert Least(4) == 16;
  }

  lemma {:induction false} LeastFits(n: nat)
    ensures Least(n) <= Pow2(n) && (5 <= n ==> Least(n) < Pow2(n))
  {
    hide Pow2;
    if n < 5 {
      LeastBelow(n);
    } else {
      LeastStep(n);
      LeastFits(n - 5);
      Pow2Adds(n - 5, 5);
      SmallPowers();
    }
  }

  lemma RunsOffDoubled(v: nat, n: nat)
    ensures CarryRunsOff(2 * v, n + 1) == CarryRunsOff(v, n)
  {
    hide Pow2, Nearest;
    DivisionIs(2 * v, 2, v, 0);
  }

  lemma RunsOffShifted(v: nat, n: nat)
    ensures CarryRunsOff(16 * v, n + 4) == CarryRunsOff(v, n)
  {
    hide CarryRunsOff;
    RunsOffDoubled(v, n);
    RunsOffDoubled(2 * v, n + 1);
    RunsOffDoubled(4 * v, n + 2);
    RunsOffDoubled(8 * v, n + 3);
  }

  // No scalar below it loses a carry.
  lemma {:induction false} BelowLeast(v: nat, n: nat)
    requires v < Least(n)
    ensures !CarryRunsOff(v, n)
    decreases n
  {
    hide Pow2, Nearest, Least;
    if n == 0 {
    } else if v % 2 == 0 {
      LeastHalved(v, n);
      BelowLeast(v / 2, n - 1);
    } else if n < 5 {
      LeastBelow(n);
      NearestIs(v, v, 0);
      LeastFits(n - 1);
      BelowLeast(0, n - 1);
    } else {
      NearestOdd(v);
      var k: nat :| v - Nearest(v) == 32 * k;
      LeastStep(n);
      LeastFits(n - 5);
      Pow2Adds(n - 5, 4);
      SmallPowers();
      BelowLeast(k, n - 5);
      RunsOffShifted(k, n - 5);
    }
  }

  lemma LeastHalved(v: nat, n: nat)
    requires 0 < n && v < Least(n) && v % 2 == 0
    ensures v / 2 < Least(n - 1)
  {
    if n % 5 == 0 {
      FourDoublings(n - 5);
    }
  }

  lemma FourDoublings(n: nat)
    requires n % 5 == 0
    ensures Least(n + 4) == 16 * Least(n)
  {
    assert Least(n + 1) == 2 * Least(n);
    assert Least(n + 2) == 2 * Least(n + 1);
    assert Least(n + 3) == 2 * Least(n + 2);
  }

  // And it does.
  lemma {:induction false} LeastLoses(n: nat)
    requires 5 <= n
    ensures CarryRunsOff(Least(n), n)
    decreases n
  {
    hide Pow2, Nearest;
    if n % 5 == 0 {
      var m: int := Least(n - 5);
      NearestIs(32 * m - 15, -15, -m);
      if n == 5 {
        SmallPowers();
      } else {
        LeastLoses(n - 5);
        RunsOffShifted(m, n - 5);
      }
    } else {
      assert n > 5;
      LeastLoses(n - 1);
      RunsOffDoubled(Least(n - 1), n - 1);
    }
  }

  lemma {:induction false} LeastIs(n: nat)
    requires n % 5 == 0
    ensures 31 * Least(n) == 16 * Pow2(n) + 15
    decreases n
  {
    hide Pow2;
    if n == 0 {
      SmallPowers();
    } else {
      LeastIs(n - 5);
      Pow2Adds(n - 5, 5);
      SmallPowers();
    }
  }

  // Scalars are recoded exactly below 2^256 - 30 (2^255 - 1) / 31, and not all of
  // them from there on.
  lemma SharpBound(v: nat)
    requires v < Pow2(256)
    ensures 31 * Least(256) == 31 * Pow2(256) - 30 * (Pow2(255) - 1)
    ensures Pow2(255) < Least(256) < Pow2(256)
    ensures v < Least(256) ==> DigitValue(Recoded(v, 256)) == v
    ensures DigitValue(Recoded(Least(256), 256)) != Least(256)
  {
    hide Pow2, Least, Recoded, CarryRunsOff, DigitValue;
    LeastIs(255);
    PowerNext(255);
    LeastStep(256);
    LeastFits(256);
    LeastLoses(256);
    RecodedValue(Least(256), 256);
    if v < Least(256) {
      BelowLeast(v, 256);
      RecodedValue(v, 256);
    }
  }

  lemma NoPlaces(v: nat)
    ensures DigitValue(Recoded(v, 0)) == 0
  {
  }

  // A carry out of the last place leaves less than eight.
  lemma Wrapped(v: nat, n: nat, w: nat)
    requires 1 <= n && v < Pow2(n) && v % 2 == 1 && v == Nearest(v) + 2 * w && Pow2(n - 1) <= w < Pow2(n - 1) + 8
    ensures 2 <= n && Low(w, n - 1) == w - Pow2(n - 1) <= Pow2(n - 2)
  {
    hide Pow2;
    PowerNext(n - 1);
    SmallPowers();
    NearestOdd(v);
    assert Nearest(v) < 0 && v >= 17;
    if n <= 4 {
      Pow2Grows(n, 4);
      assert false;
    }
    Pow2Grows(3, n - 2);
    DivisionIs(w, Pow2(n - 1), 1, w - Pow2(n - 1));
  }

  // 17 * 2^k in k + 5 places: the digit -15 and a carry that has no place to go.
  lemma {:induction false} RecodedLoses(k: nat)
    ensures 17 * Pow2(k) < Pow2(k + 5)
    ensures DigitValue(Recoded(17 * Pow2(k), k + 5)) == -15 * Pow2(k)
  {
    hide Low, Nearest, Pow2, Recoded, DigitValue;
    Pow2Adds(k, 5);
    SmallPowers();
    if k == 0 {
      SmallPowers();
      NearestIs(17, -15, -1);
      RecodedFirst(17, 5);
      DivisionIs(16, 16, 1, 0);
      LowSixteen();
      RecodedExact(0, 4);
    } else {
      PowerNext(k - 1);
      RecodedLoses(k - 1);
      RecodedFirst(17 * Pow2(k), k + 5);
    }
  }

  lemma LowSixteen()
    ensures Low(16, 4) == 0
  {
    SmallPowers();
  }

  // ----- the digits as slide makes them, in place

  ghost predicate BitsFrom(s: seq<int>, i: nat) {
    forall j | i <= j < |s| :: s[j] == 0 || s[j] == 1
  }

  // The places below i have their digits, those from i on still their bits; q
  // carries have gone past the end.
  ghost predicate Sliding(s: seq<int>, v: nat, i: nat, q: int) {
    && |s| == 256 && DigitValue(s) == v + Scale(q, 256)
    && (forall j | 0 <= j < i && j < 256 :: DigitOk(s, j))
    && BitsFrom(s, i)
  }

  // The digit at i has taken in the places up to i + b.
  ghost predicate Gathering(s: seq<int>, v: nat, i: nat, b: nat, q: int) {
    && |s| == 256 && i < 256 && 1 <= b && DigitValue(s) == v + Scale(q, 256)
    && (forall j | 0 <= j < i :: DigitOk(s, j))
    && s[i] % 2 == 1 && -15 <= s[i] <= 15 && (b <= 4 ==> 0 < s[i] < Pow2(b))
    && (forall t | i < t < i + b && t < 256 :: s[t] == 0)
    && BitsFrom(s, i + 1)
  }

  lemma StartsGathering(s: seq<int>, v: nat, i: nat, q: int)
    requires Sliding(s, v, i, q) && i < 256
    ensures s[i] == 0 || s[i] == 1
    ensures s[i] == 0 ==> Sliding(s, v, i + 1, q)
    ensures s[i] == 1 ==> Gathering(s, v, i, 1, q)
  {
    hide DigitValue, Scale;
    SmallPowers();
  }

  lemma Gathered(s: seq<int>, v: nat, i: nat, b: nat, q: int)
    requires Gathering(s, v, i, b, q) && i + b <= 256 && (b >= 5 || i + b == 256)
    ensures Sliding(s, v, i + 1, q)
  {
    hide DigitValue, Scale;
  }

  // A clear place is passed over.
  lemma GatherZero(s: seq<int>, v: nat, i: nat, b: nat, q: int)
    requires Gathering(s, v, i, b, q) && i + b < 256 && s[i + b] == 0
    ensures Gathering(s, v, i, b + 1, q)
  {
    hide DigitValue, Scale, DigitOk;
    SmallPowers();
  }

  // Which branch a set place takes: up to the third it is taken in, at the
  // fourth it is taken off, and after that the digit is done.
  lemma GatherCases(s: seq<int>, v: nat, i: nat, b: nat, q: int)
    requires Gathering(s, v, i, b, q) && b <= 6
    ensures b <= 3 <==> s[i] + Pow2(b) <= 15
    ensures b == 4 ==> s[i] - Pow2(b) >= -15
    ensures b >= 5 ==> s[i] - Pow2(b) < -15
  {
    hide DigitValue, Scale, DigitOk;
    SmallPowers();
    Pow2Adds(5, 1);
  }

  // A digit placed below others leaves them as they should be.
  lemma OthersOk(s: seq<int>, t: seq<int>, i: nat)
    requires |t| == |s| && i < |s| && forall j | 0 <= j < i :: DigitOk(s, j)
    requires s[i] != 0 && forall j | 0 <= j < i :: t[j] == s[j]
    ensures forall j | 0 <= j < i :: DigitOk(t, j)
  {
    hide Pow2;
    forall j | 0 <= j < i ensures DigitOk(t, j) {
      assert DigitOk(s, j);
    }
  }

  lemma GatherTaken(s: seq<int>, v: nat, i: nat, b: nat, q: int)
    requires Gathering(s, v, i, b, q) && b <= 3 && i + b < 256 && s[i + b] == 1
    ensures Gathering(s[i := s[i] + Pow2(b)][i + b := 0], v, i, b + 1, q)
  {
    hide DigitValue, DigitOk, Scale;
    SmallPowers();
    ScaleOne(b);
    MoveDown(s, i, b, 1);
    var t := s[i := s[i] + Pow2(b)][i + b := 0];
    assert t == s[i := s[i] + Scale(1, b)][i + b := s[i + b] - 1];
    OthersOk(s, t, i);
  }

  lemma ScaleOne(k: nat)
    ensures Scale(1, k) == Pow2(k) && Scale(-1, k) + Pow2(k) == 0 && Scale(0, k) == 0
  {
  }

  // The carry out of place k0, which is set: it runs to the first clear place,
  // or is lost at the end.
  method AddCarry(r: array<int8>, k0: nat) returns (ghost lost: int)
    requires r.Length == 256 && k0 < 256 && BitsFrom(r[..], k0) && r[k0] == 1
    modifies r
    ensures DigitValue(r[..]) == DigitValue(old(r[..])) + Scale(1, k0) - Scale(lost, 256)
    ensures lost == 0 || lost == 1
    ensures BitsFrom(r[..], k0) && r[k0] == 0
    ensures forall j | 0 <= j < k0 :: r[j] == old(r[j])
  {
    hide DigitValue, Scale, Pow2;
    ghost var d0 := DigitValue(r[..]);
    ScaleOne(256);
    ScaleOne(k0);
    var k := k0;
    lost := 1;
    while k < 256
      invariant k0 <= k <= 256
      invariant DigitValue(r[..]) == d0 + Scale(1, k0) - Pow2(k)
      invariant BitsFrom(r[..], k0) && lost == 1
      invariant forall j | 0 <= j < k0 :: r[j] == old(r[j])
      invariant if k == k0 then r[k0] == 1 else r[k0] == 0
    {
      ghost var s := r[..];
      ScaleOne(k);
      if r[k] == 0 {
        DigitAdd(s, k, 1);
        r[k] := 1;
        assert r[..] == s[k := s[k] + 1];
        lost := 0;
        break;
      }
      assert s[k] == 1;
      DigitAdd(s, k, -1);
      r[k] := 0;
      assert r[..] == s[k := s[k] + -1];
      NextPower(k);
      k := k + 1;
    }
  }

  lemma NextPower(k: nat)
    ensures Pow2(k + 1) == 2 * Pow2(k)
  {
  }

  // r[i] -= 1 << b, and the carry that makes up for it.
  method TakeOff(r: array<int8>, i: nat, b: nat, ghost v: nat, ghost q: int) returns (ghost q1: int)
    requires r.Length == 256 && Gathering(r[..], v, i, b, q) && b == 4 && i + b < 256 && r[i + b] == 1
    modifies r
    ensures Gathering(r[..], v, i, b + 1, q1)
  {
    hide DigitValue, Scale, DigitOk, Pow2;
    SmallPowers();
    ghost var s := r[..];
    GatherCases(s, v, i, b, q);
    r[i] := r[i] - 16;
    ghost var t := r[..];
    assert t == s[i := s[i] + -16];
    DigitAdd(s, i, -16);
    ghost var lost := AddCarry(r, i + b);
    q1 := q - lost;
    SixteenAt(i, q, lost);
    assert forall j | 0 <= j < 256 :: r[..][j] == r[j];
    assert forall j | 0 <= j < 256 && j != i :: t[j] == s[j];
    OthersOk(s, r[..], i);
  }

  lemma SixteenAt(i: nat, q: int, lost: int)
    ensures Scale(-16, i) + Scale(1, i + 4) == 0
    ensures Scale(q, 256) - Scale(lost, 256) == Scale(q - lost, 256)
  {
    hide Pow2;
    Pow2Adds(4, i);
    SmallPowers();
    MulSpreads(Pow2(256), q, -lost);
  }

  // r[i] = 1 & (a[i >> 3] >> (i & 7)) is bit i of the scalar.
  lemma BitAt(a: seq<uint8>, i: nat)
    requires i < 8 * |a|
    ensures Low(High(ByteValue(a[i / 8]), i % 8), 1) == Low(High(Value(a), i), 1)
  {
    hide Pow2, Low, High, Value, ByteValue;
    var o, t := i / 8, i % 8;
    FromByte(a, o);
    ValueFrom(a, o);
    var x := Value(a[o..]);
    LowByte(x, ByteValue(a[o]), Value(a[o + 1..]));
    HighTwice(Value(a), 8 * o, t);
    LowOfLow(x, t, 8);
    LowOfLow(High(x, t), 1, 8 - t);
  }

  lemma LowByte(x: nat, b: nat, rest: nat)
    requires x == b + 256 * rest && b < 256
    ensures Low(x, 8) == b
  {
    hide Pow2;
    Pow2Eight(0);
    DivisionIs(x, 256, rest, b);
  }

  lemma {:induction false} BitsOf(r: seq<int>, v: nat)
    requires forall j | 0 <= j < |r| :: r[j] == Low(High(v, j), 1)
    ensures DigitValue(r) == Low(v, |r|)
  {
    hide Pow2, Low, High;
    if r == [] {
      LowNone(v);
    } else {
      HighNone(v);
      forall j | 0 <= j < |r| - 1 ensures r[1..][j] == Low(High(High(v, 1), j), 1) {
        HighTwice(v, 1, j);
        assert r[j + 1] == Low(High(v, j + 1), 1);
      }
      BitsOf(r[1..], High(v, 1));
      LowSplits(v, 1, |r| - 1);
      SmallPowers();
    }
  }

  lemma LowBit(v: nat)
    ensures Low(v, 1) == 0 || Low(v, 1) == 1
  {
    SmallPowers();
  }

  method LoadBits(r: array<int8>, a: seq<uint8>)
    requires r.Length == 256 && |a| == 32
    modifies r
    ensures Sliding(r[..], Value(a), 0, 0)
  {
    hide Pow2, Low, High, Value, ByteValue, DigitValue, Scale, DigitOk;
    var i := 0;
    while i < 256
      invariant 0 <= i <= 256
      invariant forall j | 0 <= j < i :: r[j] == Low(High(Value(a), j), 1)
    {
      BitAt(a, i);
      LowBit(High(Value(a), i));
      r[i] := Low(High(ByteValue(a[i / 8]), i % 8), 1);
      i := i + 1;
    }
    ValueFits(a);
    LowAll(Value(a), 256);
    BitsOf(r[..], Value(a));
    ScaleOne(256);
    forall j | 0 <= j < 256 ensures r[..][j] == 0 || r[..][j] == 1 {
      LowBit(High(Value(a), j));
    }
  }

  // One digit, from the set place i up.
  method Gather(r: array<int8>, i: nat, ghost v: nat, ghost q: int) returns (ghost q1: int)
    requires r.Length == 256 && i < 256 && Gathering(r[..], v, i, 1, q)
    modifies r
    ensures Sliding(r[..], v, i + 1, q1)
  {
    hide DigitValue, Scale, DigitOk, Pow2, Gathering;
    var b := 1;
    q1 := q;
    while b <= 6 && i + b < 256
      invariant 1 <= b <= 7 && i + b <= 256
      invariant Gathering(r[..], v, i, b, q1)
    {
      ghost var s := r[..];
      PlaceIs(s, v, i, b, q1);
      GatherCases(s, v, i, b, q1);
      if r[i + b] != 0 {
        ScaleOne(b);
        if r[i] + Scale(r[i + b], b) <= 15 {
          GatherTaken(s, v, i, b, q1);
          r[i] := r[i] + Scale(r[i + b], b);
          r[i + b] := 0;
          assert r[..] == s[i := s[i] + Pow2(b)][i + b := 0];
        } else if r[i] - Scale(r[i + b], b) >= -15 {
          SmallPowers();
          q1 := TakeOff(r, i, b, v, q1);
        } else {
          break;
        }
      } else {
        GatherZero(s, v, i, b, q1);
      }
      b := b + 1;
    }
    Gathered(r[..], v, i, b, q1);
  }

  lemma PlaceIs(s: seq<int>, v: nat, i: nat, b: nat, q: int)
    requires Gathering(s, v, i, b, q)
    ensures |s| == 256 && -15 <= s[i] <= 15
    ensures i + b < 256 ==> s[i + b] == 0 || s[i + b] == 1
  {
  }

  lemma SlidingDone(s: seq<int>, v: nat, q: int)
    requires Sliding(s, v, 256, q) && v < Pow2(256)
    ensures s == Recoded(v, 256) && forall j | 0 <= j < 256 :: DigitOk(s, j)
  {
    hide DigitValue, Scale, DigitOk, Pow2;
    RecodedUnique(s, v, q);
  }

  method Slide(r: array<int8>, a: seq<uint8>)
    requires r.Length == 256 && |a| == 32
    modifies r
    ensures r[..] == Recoded(Value(a), 256)
    ensures forall j | 0 <= j < 256 :: DigitOk(r[..], j)
  {
    hide Sliding, Gathering, Value, Pow2, Recoded, DigitOk;
    LoadBits(r, a);
    ghost var q := 0;
    var i := 0;
    while i < 256
      invariant 0 <= i <= 256 && Sliding(r[..], Value(a), i, q)
    {
      StartsGathering(r[..], Value(a), i, q);
      if r[i] != 0 {
        q := Gather(r, i, Value(a), q);
      }
      i := i + 1;
    }
    ValueFits(a);
    SlidingDone(r[..], Value(a), q);
  }
}
