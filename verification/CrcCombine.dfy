// The tables of crc32.c, x2nmodp, and the checksum of a concatenation from the
// checksums of its parts.
module CrcCombine {
  import opened Basics
  import opened Powers
  import opened CrcPoly
  import opened Crc32
  import opened CrcPowers

  // ----- the register, one byte at a time and one bit at a time

  function XorByte(r: bv32, c: byte): bv32 {
    r ^ (c as bv32)
  }

  // Eight bits shifted out, each folded back in if it was a one.
  function Update(r: bv32, c: byte): bv32 {
    XPow(8, XorByte(r, c))
  }

  function Register(r: bv32, data: seq<byte>): bv32 {
    if data == [] then r else Update(Register(r, data[..|data| - 1]), data[|data| - 1])
  }

  // The CRC-32 of a string, continued from that of what came before it.
  function Crc(crc: bv32, data: seq<byte>): bv32 {
    Not(Register(Not(crc), data))
  }

  function Not(b: bv32): bv32 {
    b ^ ONES
  }

  const ONES: bv32 := 0xffff_ffff

  lemma {:induction false} RegisterConcat(r: bv32, a: seq<byte>, b: seq<byte>)
    ensures Register(r, a + b) == Register(Register(r, a), b)
  {
    if b == [] {
      assert a + b == a;
    } else {
      var all := a + b;
      assert all[..|all| - 1] == a + b[..|b| - 1] && all[|all| - 1] == b[|b| - 1];
      RegisterConcat(r, a, b[..|b| - 1]);
    }
  }

  lemma XorAssociates(r: bv32, s: bv32, x: bv32)
    ensures (r ^ s) ^ x == r ^ (s ^ x)
  {
  }

  lemma XorByteAdd(r: bv32, s: bv32, c: byte)
    ensures XorByte(Add(r, s), c) == Add(r, XorByte(s, c))
  {
    XorAssociates(r, s, c as bv32);
  }

  lemma UpdateLinear(r: bv32, s: bv32, c: byte)
    ensures Update(Add(r, s), c) == Add(XPow(8, r), Update(s, c))
  {
    hide XPow, Add, XorByte;
    XorByteAdd(r, s, c);
    XPowLinear(8, r, XorByte(s, c));
  }

  // What the register held at first and what it has read add up.
  lemma {:induction false} RegisterLinear(r: bv32, s: bv32, data: seq<byte>)
    ensures Register(Add(r, s), data) == Add(XPow(8 * |data|, r), Register(s, data))
  {
    hide XPow, Add, Update;
    if data == [] {
      XPowNone(r);
    } else {
      var front, last := data[..|data| - 1], data[|data| - 1];
      RegisterLinear(r, s, front);
      UpdateLinear(XPow(8 * |front|, r), Register(s, front), last);
      XPowAdd(8, 8 * |front|, r);
      assert 8 + 8 * |front| == 8 * |data|;
    }
  }

  lemma XPowNone(r: bv32)
    ensures XPow(0, r) == r
  {
  }

  lemma RegisterSplit(r: bv32, data: seq<byte>)
    ensures Register(r, data) == Add(XPow(8 * |data|, r), Register(0, data))
  {
    hide XPow, Add, Register;
    AddCancels(r, 0);
    RegisterLinear(r, 0, data);
  }

  // ----- crc32_combine64

  lemma NotIsAdd(b: bv32)
    ensures Not(b) == Add(b, ONES)
  {
  }

  // crc(a ++ b) from crc(a), crc(b) and the length of b.
  lemma CombineIsConcatenation(a: seq<byte>, b: seq<byte>)
    ensures Add(Mul(XPow(8 * |b|, ONE), Crc(0, a)), Crc(0, b)) == Crc(0, a + b)
  {
    hide XPow, Add, Register, Mul, Not;
    var n := 8 * |b|;
    var ra := Register(ONES, a);
    NotZero();
    NotIsAdd(ra);
    NotIsAdd(Register(ONES, b));
    NotIsAdd(Register(ONES, a + b));
    RegisterConcat(ONES, a, b);
    RegisterSplit(ra, b);
    RegisterSplit(ONES, b);
    XPowIsMul(n, Add(ra, ONES));
    XPowLinear(n, ra, ONES);
    CombineAlgebra(XPow(n, ra), XPow(n, ONES), Register(0, b), ONES);
  }

  lemma NotZero()
    ensures Not(0) == ONES
  {
  }

  // The conditioning before and after the second part cancels.
  lemma CombineAlgebra(x: bv32, y: bv32, r: bv32, ones: bv32)
    ensures Add(Add(x, y), Add(Add(y, r), ones)) == Add(Add(x, r), ones)
  {
    hide Add;
    AddAssociates(Add(x, y), Add(y, r), ones);
    AddAssociates(y, r, x);
    AddExchange(x, y, r, y);
    AddCancels(y, y);
    AddCancels(Add(x, r), 0);
  }

  // ----- x2n_table and x2nmodp

  method MakeX2nTable() returns (table: array<bv32>)
    ensures fresh(table) && table.Length == 32
    ensures forall k | 0 <= k < 32 :: table[k] == XPow(Pow2(k), ONE)
  {
    hide XPow, Mul, Pow2;
    Start();
    table := new bv32[32];
    var p: bv32 := 0x4000_0000;
    table[0] := p;
    var n := 1;
    while n < 32
      invariant 1 <= n <= 32
      invariant p == XPow(Pow2(n - 1), ONE) && p != 0
      invariant forall k | 0 <= k < n :: table[k] == XPow(Pow2(k), ONE)
    {
      SquareOfPower(n - 1, p);
      XPowNonzero(Pow2(n), ONE);
      p := Multmodp(p, p);
      table[n] := p;
      n := n + 1;
    }
  }

  // x^(n * 2^k), one bit of n a round.
  lemma PowerStep(n: nat, k: nat, p: bv32)
    ensures n % 2 == 1 ==>
      XPow(n * Pow2(k), p) == XPow(n / 2 * Pow2(k + 1), Mul(XPow(Pow2(k), ONE), p))
    ensures n % 2 == 0 ==> XPow(n * Pow2(k), p) == XPow(n / 2 * Pow2(k + 1), p)
  {
    hide XPow, Mul;
    var h := n / 2;
    assert h * (2 * Pow2(k)) == 2 * h * Pow2(k);
    if n % 2 == 1 {
      assert n * Pow2(k) == 2 * h * Pow2(k) + Pow2(k) by { assert n == 2 * h + 1; }
      XPowAdd(h * Pow2(k + 1), Pow2(k), p);
      XPowIsMul(Pow2(k), p);
    }
  }

  // What is left of n after k rounds of n >>= 1.
  function Halved(n: int, k: nat): int {
    if k == 0 then n else Halved(n, k - 1) / 2
  }

  lemma {:induction false} HalvedBounds(n: int, k: nat)
    ensures n < 0 ==> Halved(n, k) < 0
    ensures 0 <= n ==> 0 <= Halved(n, k) && (Halved(n, k) == 0 || Halved(n, k) + k <= n)
  {
    if k > 0 {
      HalvedBounds(n, k - 1);
    }
  }

  // The loop of x2nmodp comes to an end exactly for lengths that are not negative.
  lemma LoopEnds(n: int)
    ensures (exists k: nat :: Halved(n, k) == 0) <==> 0 <= n
  {
    if 0 <= n {
      HalvedBounds(n, n + 1);
      assert Halved(n, n + 1) == 0;
    } else {
      forall k: nat ensures Halved(n, k) != 0 {
        HalvedBounds(n, k);
      }
    }
  }

  method X2nmodp(n0: nat, k0: nat, table: array<bv32>) returns (p: bv32)
    requires table.Length == 32 && forall k | 0 <= k < 32 :: table[k] == XPow(Pow2(k), ONE)
    ensures p == XPow(n0 * Pow2(k0), ONE) && p != 0
  {
    hide XPow, Mul, Pow2;
    p := ONE;
    var n: nat, k: nat := n0, k0;
    XPowNonzero(n0 * Pow2(k0), ONE);
    while n > 0
      invariant XPow(n * Pow2(k), p) == XPow(n0 * Pow2(k0), ONE)
    {
      PowerStep(n, k, p);
      PowersMod32(k);
      if n % 2 == 1 {
        XPowNonzero(Pow2(k % 32), ONE);
        p := Multmodp(table[k % 32], p);
      }
      n := n / 2;
      k := k + 1;
    }
    assert n * Pow2(k) == 0;
    XPowNone(p);
  }

  method Crc32Combine(crc1: bv32, crc2: bv32, len2: nat, table: array<bv32>) returns (crc: bv32)
    requires table.Length == 32 && forall k | 0 <= k < 32 :: table[k] == XPow(Pow2(k), ONE)
    ensures crc == Add(Mul(XPow(8 * len2, ONE), crc1), crc2)
    ensures forall a: seq<byte>, b: seq<byte> ::
      crc1 == Crc(0, a) && crc2 == Crc(0, b) && len2 == |b| ==> crc == Crc(0, a + b)
  {
    hide XPow, Mul, Add, Crc;
    var op := X2nmodp(len2, 3, table);
    assert Pow2(3) == 8;
    var product := Multmodp(op, crc1);
    AddIsXor(product, crc2);
    crc := product ^ crc2;
    forall a: seq<byte>, b: seq<byte> | crc1 == Crc(0, a) && crc2 == Crc(0, b) && len2 == |b|
      ensures crc == Crc(0, a + b)
    {
      CombineIsConcatenation(a, b);
    }
  }
}
