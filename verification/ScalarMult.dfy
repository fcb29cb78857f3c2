// Scalar multiplication on the points, whatever commutative group they are:
// the loops of ge_scalarmult_base and ge_double_scalarmult_vartime. The changes
// of coordinates between the steps stand for the same point and are left out.
module ScalarMult {
  import opened Basics
  import opened Powers
  import opened BitStream
  import opened ByteStrings
  import opened AbelianGroup
  import opened ScalarSlide

  // ----- a A + b B, most significant digit first

  // X, 3 X, 5 X and so on up to 15 X
  ghost predicate OddMultiples<G(!new)>(g: Group<G>, table: seq<G>, x: G) {
    |table| == 8 && forall j | 0 <= j < 8 :: table[j] == Multiple(g, 2 * j + 1, x)
  }

  ghost function Both<G(!new)>(g: Group<G>, m: int, x: G, n: int, y: G): G {
    Add(g, Multiple(g, m, x), Multiple(g, n, y))
  }

  lemma BothDoubled<G(!new)>(g: Group<G>, m: int, x: G, n: int, y: G)
    requires Lawful(g)
    ensures Add(g, Both(g, m, x, n, y), Both(g, m, x, n, y)) == Both(g, 2 * m, x, 2 * n, y)
  {
    hide Lawful, Add, Neg, Multiple;
    Exchange(g, Multiple(g, m, x), Multiple(g, n, y), Multiple(g, m, x), Multiple(g, n, y));
    MultipleAdds(g, m, m, x);
    MultipleAdds(g, n, n, y);
  }

  lemma BothMore<G(!new)>(g: Group<G>, m: int, x: G, n: int, y: G, d: int, e: int)
    requires Lawful(g)
    ensures Add(g, Add(g, Both(g, m, x, n, y), Multiple(g, d, x)), Multiple(g, e, y)) == Both(g, m + d, x, n + e, y)
  {
    hide Lawful, Add, Neg, Multiple;
    Laws(g, Both(g, m, x, n, y), Multiple(g, d, x), Multiple(g, e, y));
    Exchange(g, Multiple(g, m, x), Multiple(g, n, y), Multiple(g, d, x), Multiple(g, e, y));
    MultipleAdds(g, m, d, x);
    MultipleAdds(g, n, e, y);
  }

  predicate OddDigit(d: int) {
    d == 0 || (-15 <= d <= 15 && d % 2 == 1)
  }

  // ge_add or ge_sub with the table entry that the digit names.
  method AddDigit<G(!new)>(g: Group<G>, t: G, d: int, table: seq<G>, ghost x: G) returns (u: G)
    requires Lawful(g) && OddMultiples(g, table, x) && OddDigit(d)
    ensures u == Add(g, t, Multiple(g, d, x))
  {
    hide Lawful, Add, Neg, Multiple;
    u := t;
    if d > 0 {
      assert 2 * (d / 2) + 1 == d;
      u := Add(g, t, table[d / 2]);
    } else if d < 0 {
      assert 2 * ((-d) / 2) + 1 == -d;
      u := Add(g, t, Neg(g, table[(-d) / 2]));
      MultipleNegates(g, -d, x);
    } else {
      MultipleOfNothing(g, x);
      Laws(g, t, t, t);
    }
  }

  // A, 3 A, 5 A, 7 A, 9 A, 11 A, 13 A, 15 A
  method OddTable<G(!new)>(g: Group<G>, x: G) returns (table: seq<G>)
    requires Lawful(g)
    ensures OddMultiples(g, table, x)
  {
    hide Lawful, Add, Neg, Multiple;
    MultipleOnce(g, x);
    table := [x];
    var x2 := Add(g, x, x);
    while |table| < 8
      invariant 1 <= |table| <= 8
      invariant forall j | 0 <= j < |table| :: table[j] == Multiple(g, 2 * j + 1, x)
    {
      var u := Add(g, x2, table[|table| - 1]);
      MultipleAdds(g, 2, 2 * (|table| - 1) + 1, x);
      table := table + [u];
    }
  }

  lemma OddDigits(r: seq<int>)
    requires forall j | 0 <= j < |r| :: DigitOk(r, j)
    ensures forall j | 0 <= j < |r| :: OddDigit(r[j])
  {
    forall j | 0 <= j < |r| ensures OddDigit(r[j]) {
      assert DigitOk(r, j);
    }
  }

  lemma BothZero<G(!new)>(g: Group<G>, x: G, y: G)
    requires Lawful(g)
    ensures Both(g, 0, x, 0, y) == g.zero
  {
    hide Lawful, Add, Neg, Multiple;
    MultipleOfNothing(g, x);
    MultipleOfNothing(g, y);
    Laws(g, g.zero, g.zero, g.zero);
  }

  // What the digits of a scalar amount to.
  ghost function Slid(a: seq<uint8>): int {
    Value(a) - if CarryRunsOff(Value(a), 256) then Pow2(256) else 0
  }

  // What the digits from place i on amount to, in units of that place.
  ghost function FromPlace(r: seq<int>, i: int): int
    requires 0 <= i <= |r|
  {
    DigitValue(r[i..])
  }

  lemma FromNext(r: seq<int>, i: int)
    requires 0 <= i < |r|
    ensures FromPlace(r, i) == r[i] + 2 * FromPlace(r, i + 1)
  {
    DigitFirst(r, i);
  }

  lemma FromEnds(r: seq<int>)
    ensures FromPlace(r, |r|) == 0 && FromPlace(r, 0) == DigitValue(r)
  {
    assert r[0..] == r;
  }

  // The highest place where either has a digit.
  method HighestDigit(da: seq<int>, db: seq<int>) returns (i: int)
    requires |da| == |db|
    ensures -1 <= i < |da| && FromPlace(da, i + 1) == 0 && FromPlace(db, i + 1) == 0
  {
    hide FromPlace;
    FromEnds(da);
    FromEnds(db);
    i := |da| - 1;
    while i >= 0
      invariant -1 <= i < |da|
      invariant FromPlace(da, i + 1) == 0 && FromPlace(db, i + 1) == 0
    {
      if da[i] != 0 || db[i] != 0 {
        break;
      }
      FromNext(da, i);
      FromNext(db, i);
      i := i - 1;
    }
  }

  // One doubling for every place below that, and one addition for every digit.
  method CombineDigits<G(!new)>(
    g: Group<G>, da: seq<int>, ai: seq<G>, ghost pointA: G, db: seq<int>, bi: seq<G>, ghost pointB: G)
    returns (r: G)
    requires Lawful(g) && OddMultiples(g, ai, pointA) && OddMultiples(g, bi, pointB)
    requires |da| == |db| && forall j | 0 <= j < |da| :: OddDigit(da[j]) && OddDigit(db[j])
    ensures r == Both(g, DigitValue(da), pointA, DigitValue(db), pointB)
  {
    hide Lawful, Add, Neg, Multiple, Both, OddMultiples, DigitValue, OddDigit, FromPlace;
    r := g.zero;
    BothZero(g, pointA, pointB);
    var i := HighestDigit(da, db);
    while i >= 0
      invariant -1 <= i < |da|
      invariant r == Both(g, FromPlace(da, i + 1), pointA, FromPlace(db, i + 1), pointB)
    {
      ghost var m, n := FromPlace(da, i + 1), FromPlace(db, i + 1);
      BothDoubled(g, m, pointA, n, pointB);
      var t := Add(g, r, r);
      t := AddDigit(g, t, da[i], ai, pointA);
      t := AddDigit(g, t, db[i], bi, pointB);
      BothMore(g, 2 * m, pointA, 2 * n, pointB, da[i], db[i]);
      FromNext(da, i);
      FromNext(db, i);
      r := t;
      i := i - 1;
    }
    FromEnds(da);
    FromEnds(db);
  }

  // r = a A + b B, less 2^256 times a point whose scalar lost a carry
  method GeDoubleScalarmultVartime<G(!new)>(
    g: Group<G>, a: seq<uint8>, pointA: G, b: seq<uint8>, bi: seq<G>, ghost pointB: G)
    returns (r: G)
    requires Lawful(g) && |a| == |b| == 32 && OddMultiples(g, bi, pointB)
    ensures r == Both(g, Slid(a), pointA, Slid(b), pointB)
    ensures Value(a) < Least(256) && Value(b) < Least(256) ==> r == Both(g, Value(a), pointA, Value(b), pointB)
  {
    hide Lawful, Both, OddMultiples, Pow2, DigitValue, Recoded, DigitOk, Value, OddDigit, CarryRunsOff, Least;
    var aslide, bslide := new int8[256], new int8[256];
    Slide(aslide, a);
    var da: seq<int> := aslide[..];
    OddDigits(da);
    Slide(bslide, b);
    var db: seq<int> := bslide[..];
    OddDigits(db);
    var ai := OddTable(g, pointA);
    r := CombineDigits(g, da, ai, pointA, db, bi, pointB);
    ValueFits(a);
    ValueFits(b);
    RecodedValue(Value(a), 256);
    RecodedValue(Value(b), 256);
    if Value(a) < Least(256) && Value(b) < Least(256) {
      BelowLeast(Value(a), 256);
      BelowLeast(Value(b), 256);
    }
  }
}
