// fe_tobytes writes the one representative of a field element below
// 2^255 - 19, and fe_frombytes reads 32 bytes, leaving out the top bit.
module FieldCodec {
  import opened Basics
  import opened Powers
  import opened BitStream
  import opened ByteStrings
  import opened Field
  import opened FieldMul
  import opened FieldBytes

  // |h| bounded by 1.1 * 2^26, 1.1 * 2^25, by turns.
  ghost predicate Writable(h: seq<int>) {
    Bounded(h, 73819750, 36909875)
  }

  // What comes out of limb i when q goes in, from limb 0 on.
  function Passed(h: seq<int>, q: int, i: nat): int
    requires |h| == 10 && i <= 10
  {
    if i == 0 then q
    else if i % 2 == 1 then Shr26(h[i - 1] + Passed(h, q, i - 1))
    else Shr25(h[i - 1] + Passed(h, q, i - 1))
  }

  // What stays in limb i.
  function Left(h: seq<int>, q: int, i: nat): int
    requires |h| == 10 && i < 10
  {
    h[i] + Passed(h, q, i) - (if i % 2 == 0 then 0x400_0000 else 0x200_0000) * Passed(h, q, i + 1)
  }

  lemma LeftIsDigit(h: seq<int>, q: int, i: nat)
    requires |h| == 10 && i < 10
    ensures 0 <= Left(h, q, i) < if i % 2 == 0 then 0x400_0000 else 0x200_0000
  {
    hide Shr26, Shr25;
  }

  function AllLeft(h: seq<int>, q: int): (d: seq<int>)
    requires |h| == 10
    ensures |d| == 10 && forall i | 0 <= i < 10 :: d[i] == Left(h, q, i)
  {
    seq(10, i requires 0 <= i < 10 => Left(h, q, i))
  }

  // Carrying all the way up divides by 2^255.
  lemma PassedValue(h: seq<int>, q: int)
    requires |h| == 10
    ensures FieldValue(AllLeft(h, q)) ==
      FieldValue(h) + q
        - 0x8000_0000_0000_0000_0000_0000_0000_0000_0000_0000_0000_0000_0000_0000_0000_0000 * Passed(h, q, 10)
  {
    hide Passed;
    PassedNone(h, q);
  }

  lemma PassedNone(h: seq<int>, q: int)
    requires |h| == 10
    ensures Passed(h, q, 0) == q
  {
  }

  lemma DigitsBound(d: seq<int>)
    requires |d| == 10 && forall i | 0 <= i < 10 :: 0 <= d[i] < if i % 2 == 0 then 0x400_0000 else 0x200_0000
    ensures 0 <= FieldValue(d) < 0x8000_0000_0000_0000_0000_0000_0000_0000_0000_0000_0000_0000_0000_0000_0000_0000
  {
  }

  // The high limb decides the quotient by 2^255 - 19, all but a half.
  lemma HighLimb(h: seq<int>)
    requires Writable(h)
    ensures |h| == 10
    ensures var low := FieldValue(h)
        - 0x40_0000_0000_0000_0000_0000_0000_0000_0000_0000_0000_0000_0000_0000_0000 * h[9];
      -0x80_0000_0000_0000_0000_0000_0000_0000_0000_0000_0000_0000_0000_0000_0000 < low
        < 0x80_0000_0000_0000_0000_0000_0000_0000_0000_0000_0000_0000_0000_0000_0000
  {
  }

  // q = floor(2^(-255) (h + 19 2^(-25) h9 + 2^(-1))) is the quotient.
  lemma QuotientByP(h: int, h9: int, low: int, q0: int, q: int, left: int)
    requires h == low + 0x40_0000_0000_0000_0000_0000_0000_0000_0000_0000_0000_0000_0000_0000_0000 * h9
    requires -0x80_0000_0000_0000_0000_0000_0000_0000_0000_0000_0000_0000_0000_0000_0000 < low
    requires low < 0x80_0000_0000_0000_0000_0000_0000_0000_0000_0000_0000_0000_0000_0000_0000
    requires q0 * 0x200_0000 <= 19 * h9 + 0x100_0000 < q0 * 0x200_0000 + 0x200_0000
    requires h + q0 == 0x8000_0000_0000_0000_0000_0000_0000_0000_0000_0000_0000_0000_0000_0000_0000_0000 * q + left
    requires 0 <= left < 0x8000_0000_0000_0000_0000_0000_0000_0000_0000_0000_0000_0000_0000_0000_0000_0000
    requires -0x2_0000_0000_0000_0000_0000_0000_0000_0000_0000_0000_0000_0000_0000_0000_0000_0000 < h
    requires h < 0x2_0000_0000_0000_0000_0000_0000_0000_0000_0000_0000_0000_0000_0000_0000_0000_0000
    ensures q == h / 0x7fff_ffff_ffff_ffff_ffff_ffff_ffff_ffff_ffff_ffff_ffff_ffff_ffff_ffff_ffff_ffed
  {
    var p := 0x7fff_ffff_ffff_ffff_ffff_ffff_ffff_ffff_ffff_ffff_ffff_ffff_ffff_ffff_ffff_ffed;
    var quotient, r := h / p, h % p;
    assert h == p * quotient + r && 0 <= r < p;
    assert -5 <= quotient <= 5;
    var x := r - 19 * quotient + q0;
    assert 0 <= x < 0x8000_0000_0000_0000_0000_0000_0000_0000_0000_0000_0000_0000_0000_0000_0000_0000;
  }

  // x & kBottom26Bits and x & kBottom25Bits
  function Bottom26(x: int): int {
    x - Shr26(x) * 0x400_0000
  }

  function Bottom25(x: int): int {
    x - Shr25(x) * 0x200_0000
  }

  lemma PassedNext(h: seq<int>, q: int, i: nat)
    requires |h| == 10 && i < 10
    ensures var x := h[i] + Passed(h, q, i);
      && Passed(h, q, i + 1) == (if i % 2 == 0 then Shr26(x) else Shr25(x))
      && Left(h, q, i) == (if i % 2 == 0 then Bottom26(x) else Bottom25(x))
  {
    hide Shr26, Shr25;
  }

  // Nothing carried on the way leaves 32 bits.
  lemma {:induction false} PassedSmall(h: seq<int>, q: int, i: nat)
    requires Writable(h) && -100 <= q <= 100 && i <= 10
    ensures |h| == 10 && -100 <= Passed(h, q, i) <= 100
  {
    hide Shr26, Shr25;
    if i > 0 {
      PassedSmall(h, q, i - 1);
    }
  }

  method Quotient(v: seq<int32>) returns (q: int32)
    requires Writable(v)
    ensures |v| == 10 && q == FieldValue(v) / P && -100 <= 19 * q <= 100
  {
    hide Shr26, Shr25, Passed, Left, FieldValue;
    var product: int32 := 19 * v[9];
    var rounded: int32 := product + 0x100_0000;
    q := Shr25(rounded);
    ghost var q0 := q;
    PassedNone(v, q0);
    var i := 0;
    while i < 10
      invariant 0 <= i <= 10 && q == Passed(v, q0, i)
    {
      PassedSmall(v, q0, i);
      PassedNext(v, q0, i);
      var sum: int32 := v[i] + q;
      q := if i % 2 == 0 then Shr26(sum) else Shr25(sum);
      i := i + 1;
    }
    QuotientFound(v, q0);
  }

  lemma QuotientFound(v: seq<int>, q0: int)
    requires Writable(v) && q0 == Shr25(19 * v[9] + 0x100_0000)
    ensures |v| == 10 && Passed(v, q0, 10) == FieldValue(v) / P && -100 <= 19 * Passed(v, q0, 10) <= 100
  {
    hide Shr26, Shr25, Passed, Left, FieldValue, AllLeft;
    HighLimb(v);
    WholeValue(v);
    forall i | 0 <= i < 10 ensures 0 <= Left(v, q0, i) < if i % 2 == 0 then 0x400_0000 else 0x200_0000 {
      LeftIsDigit(v, q0, i);
    }
    DigitsBound(AllLeft(v, q0));
    PassedValue(v, q0);
    QuotientByP(FieldValue(v), v[9],
      FieldValue(v) - 0x40_0000_0000_0000_0000_0000_0000_0000_0000_0000_0000_0000_0000_0000_0000 * v[9],
                q0, Passed(v, q0, 10), FieldValue(AllLeft(v, q0)));
  }

  lemma WholeValue(h: seq<int>)
    requires Writable(h)
    ensures |h| == 10
    ensures -0x1_0000_0000_0000_0000_0000_0000_0000_0000_0000_0000_0000_0000_0000_0000_0000_0000 < FieldValue(h)
    ensures FieldValue(h) < 0x1_0000_0000_0000_0000_0000_0000_0000_0000_0000_0000_0000_0000_0000_0000_0000_0000
  {
  }

  // h - (2^255 - 19) q, by adding 19 q and leaving out what is past 2^255.
  lemma ReducedDigits(v: seq<int>, q: int)
    requires Writable(v) && |v| == 10 && q == FieldValue(v) / P && -100 <= 19 * q <= 100
    ensures FieldValue(AllLeft(v, 19 * q)) == FieldValue(v) % P
  {
    hide Shr26, Shr25, Passed, Left, FieldValue, AllLeft;
    forall i | 0 <= i < 10 ensures 0 <= Left(v, 19 * q, i) < if i % 2 == 0 then 0x400_0000 else 0x200_0000 {
      LeftIsDigit(v, 19 * q, i);
    }
    DigitsBound(AllLeft(v, 19 * q));
    PassedValue(v, 19 * q);
    Remainder(FieldValue(v), q, Passed(v, 19 * q, 10), FieldValue(AllLeft(v, 19 * q)));
  }

  lemma Remainder(h: int, q: int, passed: int, left: int)
    requires q == h / P
    requires left == h + 19 * q
      - 0x8000_0000_0000_0000_0000_0000_0000_0000_0000_0000_0000_0000_0000_0000_0000_0000 * passed
    requires 0 <= left < 0x8000_0000_0000_0000_0000_0000_0000_0000_0000_0000_0000_0000_0000_0000_0000_0000
    ensures left == h % P
  {
    assert h == 0x7fff_ffff_ffff_ffff_ffff_ffff_ffff_ffff_ffff_ffff_ffff_ffff_ffff_ffff_ffff_ffed * q + h % P;
  }

  lemma DigitsOf(d: seq<nat>)
    requires |d| == 10 && forall i | 0 <= i < 10 :: d[i] < if i % 2 == 0 then 0x400_0000 else 0x200_0000
    ensures AreDigits(d)
  {
    hide Pow2;
    LargePowers();
  }

  lemma BelowPow256(n: int)
    requires n < P
    ensures n < Pow2(256)
  {
    hide Pow2;
    LargePowers();
    Pow2Adds(32, 32);
    Pow2Adds(64, 64);
    Pow2Adds(128, 128);
  }

  // The carries that leave digits.
  method ReduceLimbs(v: seq<int32>, q: int32) returns (d: seq<nat>)
    requires Writable(v) && |v| == 10 && -100 <= 19 * q <= 100
    ensures d == AllLeft(v, 19 * q)
    ensures forall i | 0 <= i < 10 :: d[i] < if i % 2 == 0 then 0x400_0000 else 0x200_0000
  {
    hide Shr26, Shr25, Passed, Left, FieldValue, Bottom26, Bottom25;
    var carry: int32 := 19 * q;
    d := [];
    PassedNone(v, 19 * q);
    var i := 0;
    while i < 10
      invariant 0 <= i <= 10 && |d| == i && carry == Passed(v, 19 * q, i)
      invariant forall j | 0 <= j < i :: d[j] == Left(v, 19 * q, j)
      invariant forall j | 0 <= j < i :: d[j] < if j % 2 == 0 then 0x400_0000 else 0x200_0000
    {
      PassedSmall(v, 19 * q, i);
      PassedNext(v, 19 * q, i);
      LeftIsDigit(v, 19 * q, i);
      var x: int32 := v[i] + carry;
      carry := if i % 2 == 0 then Shr26(x) else Shr25(x);
      d := d + [if i % 2 == 0 then Bottom26(x) else Bottom25(x)];
      i := i + 1;
    }
  }

  // The unique representative below 2^255 - 19.
  method FeTobytes(s: array<uint8>, h: array<int32>)
    requires s.Length == 32 && h.Length == 10 && Writable(h[..])
    modifies s
    ensures Value(s[..]) == FieldValue(old(h[..])) % P
  {
    hide FieldValue, Value, Passed, Left, AllLeft, Writable, Bytes32, AreDigits, Pow2;
    var v := h[..];
    var q := Quotient(v);
    var d := ReduceLimbs(v, q);
    ReducedDigits(v, q);
    DigitsOf(d);
    BelowPow256(FieldValue(d));
    Bytes32Value(d);
    var b := Bytes32(d);
    forall j | 0 <= j < 32 {
      s[j] := b[j];
    }
    assert s[..] == b;
  }

  // ----- reading

  // The limbs before any carry: each load at its place, the last without its
  // top bit.
  function Loaded(s: seq<uint8>): (c: seq<int>)
    requires |s| == 32
    ensures |c| == 10
  {
    [ Load4(s, 0), Load3(s, 4) * 64, Load3(s, 7) * 32, Load3(s, 10) * 8, Load3(s, 13) * 4,
      Load4(s, 16), Load3(s, 20) * 128, Load3(s, 23) * 32, Load3(s, 26) * 16, Low(Load3(s, 29), 23) * 4 ]
  }

  lemma LoadThree(s: seq<uint8>, o: nat)
    requires o + 3 <= |s|
    ensures Value(s[o..]) == Load3(s, o) + 0x100_0000 * Value(s[o + 3..]) && Load3(s, o) < 0x100_0000
  {
    hide Value, ByteValue;
    ValueFrom(s, o);
    ValueFrom(s, o + 1);
    ValueFrom(s, o + 2);
  }

  lemma LoadFour(s: seq<uint8>, o: nat)
    requires o + 4 <= |s|
    ensures Value(s[o..]) == Load4(s, o) + 0x1_0000_0000 * Value(s[o + 4..]) && Load4(s, o) < 0x1_0000_0000
  {
    hide Value, ByteValue;
    ValueFrom(s, o);
    ValueFrom(s, o + 1);
    ValueFrom(s, o + 2);
    ValueFrom(s, o + 3);
  }

  // The ten loads, at their places, are the number.
  lemma LowLoads(s: seq<uint8>)
    requires |s| == 32
    ensures Value(s) == Load4(s, 0) + 0x1_0000_0000 * Load3(s, 4) + 0x100_0000_0000_0000 * Load3(s, 7)
      + 0x1_0000_0000_0000_0000_0000 * Load3(s, 10) + 0x100_0000_0000_0000_0000_0000_0000 * Load3(s, 13)
      + 0x1_0000_0000_0000_0000_0000_0000_0000_0000 * Value(s[16..])
  {
    hide Value, ByteValue, Load3, Load4;
    LoadFour(s, 0);
    LoadThree(s, 4);
    LoadThree(s, 7);
    LoadThree(s, 10);
    LoadThree(s, 13);
    assert s[0..] == s;
  }

  lemma HighLoads(s: seq<uint8>)
    requires |s| == 32
    ensures Value(s[16..]) == Load4(s, 16) + 0x1_0000_0000 * Load3(s, 20) + 0x100_0000_0000_0000 * Load3(s, 23)
      + 0x1_0000_0000_0000_0000_0000 * Load3(s, 26) + 0x100_0000_0000_0000_0000_0000_0000 * Load3(s, 29)
  {
    hide Value, ByteValue, Load3, Load4;
    LoadFour(s, 16);
    LoadThree(s, 20);
    LoadThree(s, 23);
    LoadThree(s, 26);
    LoadThree(s, 29);
    NoBytes(s);
  }

  lemma NoBytes(s: seq<uint8>)
    requires |s| == 32
    ensures Value(s[32..]) == 0
  {
  }

  lemma LoadSizes(s: seq<uint8>, o: nat)
    ensures o + 3 <= |s| ==> Load3(s, o) < 0x100_0000
    ensures o + 4 <= |s| ==> Load4(s, o) < 0x1_0000_0000
  {
  }

  lemma LoadedRange(s: seq<uint8>)
    requires |s| == 32
    ensures forall i | 0 <= i < 10 :: 0 <= Loaded(s)[i] < 0x1_0000_0000
    ensures Loaded(s)[9] < 0x200_0000
  {
    hide ByteValue, Load3, Load4, Low, Pow2;
    LoadSizes(s, 0);
    LoadSizes(s, 4);
    LoadSizes(s, 7);
    LoadSizes(s, 10);
    LoadSizes(s, 13);
    LoadSizes(s, 16);
    LoadSizes(s, 20);
    LoadSizes(s, 23);
    LoadSizes(s, 26);
    LowBits23(Load3(s, 29));
  }

  lemma LowBits23(top: nat)
    ensures Low(top, 23) < 0x80_0000 && top == Low(top, 23) + 0x80_0000 * High(top, 23)
  {
    hide Pow2;
    LargePowers();
    SmallPowers();
    Pow2Adds(21, 2);
    LowHigh(top, 23);
  }

  // The limbs loaded are the number without its top bit.
  lemma LoadedValue(s: seq<uint8>)
    requires |s| == 32
    ensures FieldValue(Loaded(s)) == Low(Value(s), 255)
  {
    hide Value, ByteValue, Load3, Load4, Low, High, Pow2;
    LowLoads(s);
    HighLoads(s);
    LoadSizes(s, 0);
    LoadSizes(s, 4);
    LoadSizes(s, 7);
    LoadSizes(s, 10);
    LoadSizes(s, 13);
    LoadSizes(s, 16);
    LoadSizes(s, 20);
    LoadSizes(s, 23);
    LoadSizes(s, 26);
    LowBits23(Load3(s, 29));
    TopBit(Value(s), FieldValue(Loaded(s)), High(Load3(s, 29), 23));
  }

  lemma TopBit(v: nat, rest: nat, bit: nat)
    requires v == rest + 0x8000_0000_0000_0000_0000_0000_0000_0000_0000_0000_0000_0000_0000_0000_0000_0000 * bit
    requires rest < 0x8000_0000_0000_0000_0000_0000_0000_0000_0000_0000_0000_0000_0000_0000_0000_0000
    ensures Low(v, 255) == rest
  {
    hide Pow2;
    Pow255();
    DivisionIs(v, Pow2(255), bit, rest);
  }

  lemma Pow255()
    ensures Pow2(255) == 0x8000_0000_0000_0000_0000_0000_0000_0000_0000_0000_0000_0000_0000_0000_0000_0000
  {
    hide Pow2;
    LargePowers();
    SmallPowers();
    Pow2Adds(21, 10);
    Pow2Adds(5, 5);
    Pow2Adds(32, 32);
    Pow2Adds(64, 64);
    Pow2Adds(32, 31);
    Pow2Adds(64, 63);
    Pow2Adds(128, 127);
  }

  // The carries out of the odd limbs: they are small then, and the even ones
  // still of 32 bits.
  method CarryOdd(c: seq<int>) returns (v: seq<int64>, ghost k: int)
    requires |c| == 10 && c[9] < 0x200_0000 && forall i | 0 <= i < 10 :: 0 <= c[i] < 0x1_0000_0000
    ensures |v| == 10 && FieldValue(v) == FieldValue(c) - P * k
    ensures Bounded(v, 0x1_0000_0100, 0x100_0000)
  {
    hide Stay26, Stay25, Up26, Up25;
    var h9: int64, carry9: int64 := Carry25(c[9], 0);
    var product: int64 := carry9 * 19;
    var h0: int64 := c[0] + product;
    var h1: int64, h2: int64 := Carry25(c[1], c[2]);
    var h3: int64, h4: int64 := Carry25(c[3], c[4]);
    var h5: int64, h6: int64 := Carry25(c[5], c[6]);
    var h7: int64, h8: int64 := Carry25(c[7], c[8]);
    k := carry9;
    v := [h0, h1, h2, h3, h4, h5, h6, h7, h8, h9];
  }

  // And those out of the even ones.
  method CarryEven(c: seq<int>) returns (v: seq<int64>)
    requires Bounded(c, 0x1_0000_0100, 0x100_0000)
    ensures |c| == |v| == 10 && FieldValue(v) == FieldValue(c) && Tight(v)
  {
    hide Stay26, Stay25, Up26, Up25;
    var h0: int64, h1: int64 := Carry26(c[0], c[1]);
    var h2: int64, h3: int64 := Carry26(c[2], c[3]);
    var h4: int64, h5: int64 := Carry26(c[4], c[5]);
    var h6: int64, h7: int64 := Carry26(c[6], c[7]);
    var h8: int64, h9: int64 := Carry26(c[8], c[9]);
    v := [h0, h1, h2, h3, h4, h5, h6, h7, h8, h9];
  }

  method FeFrombytes(h: array<int32>, s: seq<uint8>)
    requires h.Length == 10 && |s| == 32
    modifies h
    ensures Congruent(FieldValue(h[..]), Low(Value(s), 255))
    ensures Tight(h[..])
  {
    hide Value, Loaded, Low, Congruent, FieldValue;
    var c := Loaded(s);
    LoadedRange(s);
    LoadedValue(s);
    ghost var k;
    var v: seq<int64>;
    v, k := CarryOdd(c);
    v := CarryEven(v);
    CongruentIs(FieldValue(v), FieldValue(c), k);
    assert forall i | 0 <= i < 10 :: -0x8000_0000 <= v[i] < 0x8000_0000;
    Store(h, v);
  }

  // Reading 32 bytes and writing them again takes their top bit off and reduces
  // them.
  method Reencode(out: array<uint8>, s: seq<uint8>)
    requires out.Length == 32 && |s| == 32
    modifies out
    ensures Value(out[..]) == Low(Value(s), 255) % P
  {
    hide Value, Low, FieldValue;
    var h := new int32[10];
    FeFrombytes(h, s);
    FeTobytes(out, h);
  }
}
