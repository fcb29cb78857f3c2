// Polynomials over GF(2) modulo the CRC-32 polynomial p(x), reflected: bit 31
// of a register is the coefficient of x^0 and bit 0 that of x^31. Addition is
// exclusive-or; multiplying by x is a right shift with x^32 folded back.
module CrcPoly {
  const POLY: bv32 := 0xedb88320
  const ONE: bv32 := 0x8000_0000

  function MulX(b: bv32): bv32 {
    if b & 1 == 1 then (b >> 1) ^ POLY else b >> 1
  }

  // x^n times b.
  function XPow(n: nat, b: bv32): bv32 {
    if n == 0 then b else MulX(XPow(n - 1, b))
  }

  // Addition of polynomials.
  function Add(a: bv32, b: bv32): bv32 {
    a ^ b
  }

  function Pick(yes: bool, b: bv32): bv32 {
    if yes then b else 0
  }

  // The product of b with the part of a at and below the coefficient that m
  // selects, where b stands for that power of x.
  function MulFrom(a: bv32, b: bv32, m: bv32): bv32
    decreases m
  {
    if m == 0 then 0 else Add(Pick(a & m != 0, b), MulFrom(a, MulX(b), m >> 1))
  }

  // a(x) * b(x) mod p(x)
  function Mul(a: bv32, b: bv32): bv32 {
    MulFrom(a, b, ONE)
  }

  // ----- addition

  lemma AddCancels(a: bv32, b: bv32)
    ensures Add(Add(a, b), b) == a && Add(a, a) == 0 && Add(a, 0) == a && Add(0, a) == a
  {
  }

  lemma AddAssociates(a: bv32, b: bv32, c: bv32)
    ensures Add(Add(a, b), c) == Add(a, Add(b, c)) && Add(a, b) == Add(b, a)
  {
  }

  lemma AddExchange(a: bv32, b: bv32, c: bv32, d: bv32)
    ensures Add(Add(a, b), Add(c, d)) == Add(Add(a, c), Add(b, d))
  {
    hide Add;
    AddAssociates(Add(a, b), c, d);
    AddAssociates(a, b, c);
    AddAssociates(b, c, a);
    AddAssociates(a, c, b);
    AddAssociates(Add(a, c), b, d);
  }

  lemma PickAdd(yes: bool, b: bv32, c: bv32)
    ensures Pick(yes, Add(b, c)) == Add(Pick(yes, b), Pick(yes, c))
  {
  }

  // ----- multiplying by x is linear and loses nothing

  lemma ShiftXor(a: bv32, b: bv32)
    ensures (a ^ b) >> 1 == (a >> 1) ^ (b >> 1)
  {
  }

  lemma LowXor(a: bv32, b: bv32)
    ensures (a ^ b) & 1 == 1 <==> (a & 1 == 1) != (b & 1 == 1)
  {
  }

  lemma XorFolds(x: bv32, y: bv32, p: bv32)
    ensures (x ^ p) ^ (y ^ p) == x ^ y
    ensures (x ^ p) ^ y == (x ^ y) ^ p
    ensures x ^ (y ^ p) == (x ^ y) ^ p
  {
  }

  lemma MulXXor(a: bv32, b: bv32)
    ensures MulX(a ^ b) == MulX(a) ^ MulX(b)
  {
    ShiftXor(a, b);
    LowXor(a, b);
    XorFolds(a >> 1, b >> 1, POLY);
  }

  lemma MulXLinear(a: bv32, b: bv32)
    ensures MulX(Add(a, b)) == Add(MulX(a), MulX(b))
  {
    hide MulX;
    MulXXor(a, b);
  }

  lemma MulXPick(yes: bool, b: bv32)
    ensures MulX(Pick(yes, b)) == Pick(yes, MulX(b))
  {
  }

  // The top coefficient of p is what MulX folds in, so nothing nonzero is lost.
  lemma MulXNonzero(b: bv32)
    requires b != 0
    ensures MulX(b) != 0
  {
  }

  lemma {:induction false} XPowLinear(n: nat, a: bv32, b: bv32)
    ensures XPow(n, Add(a, b)) == Add(XPow(n, a), XPow(n, b))
  {
    hide MulX, Add;
    if n > 0 {
      XPowLinear(n - 1, a, b);
      MulXLinear(XPow(n - 1, a), XPow(n - 1, b));
    }
  }

  lemma {:induction false} XPowZero(n: nat)
    ensures XPow(n, 0) == 0
  {
    if n > 0 {
      XPowZero(n - 1);
    }
  }

  lemma {:induction false} XPowAdd(m: nat, n: nat, b: bv32)
    ensures XPow(m + n, b) == XPow(m, XPow(n, b))
  {
    hide MulX;
    if m > 0 {
      XPowAdd(m - 1, n, b);
    }
  }

  lemma {:induction false} XPowNonzero(n: nat, b: bv32)
    requires b != 0
    ensures XPow(n, b) != 0
  {
    hide MulX;
    if n > 0 {
      XPowNonzero(n - 1, b);
      MulXNonzero(XPow(n - 1, b));
    }
  }

  // ----- the product is linear in its second factor and commutes with x

  lemma {:induction false} MulFromLinear(a: bv32, b: bv32, c: bv32, m: bv32)
    ensures MulFrom(a, Add(b, c), m) == Add(MulFrom(a, b, m), MulFrom(a, c, m))
    decreases m
  {
    hide MulX, Pick, Add;
    AddCancels(0, 0);
    if m != 0 {
      MulXLinear(b, c);
      MulFromLinear(a, MulX(b), MulX(c), m >> 1);
      PickAdd(a & m != 0, b, c);
      AddExchange(Pick(a & m != 0, b), Pick(a & m != 0, c), MulFrom(a, MulX(b), m >> 1), MulFrom(a, MulX(c), m >> 1));
    }
  }

  lemma {:induction false} MulFromX(a: bv32, b: bv32, m: bv32)
    ensures MulFrom(a, MulX(b), m) == MulX(MulFrom(a, b, m))
    decreases m
  {
    hide MulX, Pick, Add;
    MulXZero();
    if m != 0 {
      MulFromX(a, MulX(b), m >> 1);
      MulXPick(a & m != 0, b);
      MulXLinear(Pick(a & m != 0, b), MulFrom(a, MulX(b), m >> 1));
    }
  }

  lemma MulXZero()
    ensures MulX(0) == 0
  {
  }

  lemma {:induction false} MulFromZero(a: bv32, m: bv32)
    ensures MulFrom(a, 0, m) == 0
    decreases m
  {
    if m != 0 {
      MulFromZero(a, m >> 1);
    }
  }

  lemma {:induction false} MulFromPick(a: bv32, yes: bool, b: bv32, m: bv32)
    ensures MulFrom(a, Pick(yes, b), m) == Pick(yes, MulFrom(a, b, m))
  {
    MulFromZero(a, m);
  }

  // ----- one is a unit on both sides

  // Coefficients selected one by one put the polynomial together again.
  lemma {:induction false} MulFromSelf(a: bv32, m: bv32)
    requires m & (m - 1) == 0
    ensures MulFrom(a, m, m) == a & (m | (m - 1)) || m == 0
    decreases m
  {
    hide MulX, Pick;
    if m > 1 {
      MulXShift(m);
      HalfMask(m);
      MulFromSelf(a, m >> 1);
      MaskSplit(a, m);
    } else if m == 1 {
      MaskOne(a);
    }
  }

  lemma MulXShift(m: bv32)
    requires m & (m - 1) == 0 && m > 1
    ensures MulX(m) == m >> 1
  {
  }

  lemma HalfMask(m: bv32)
    requires m & (m - 1) == 0 && m > 1
    ensures (m >> 1) & ((m >> 1) - 1) == 0 && m >> 1 != 0
  {
  }

  lemma MaskSplit(a: bv32, m: bv32)
    requires m & (m - 1) == 0 && m > 1
    ensures a & (m | (m - 1)) == Add(Pick(a & m != 0, m), a & ((m >> 1) | ((m >> 1) - 1)))
  {
  }

  lemma MaskOne(a: bv32)
    ensures a & 1 == Pick(a & 1 != 0, 1) && (1 as bv32) | 0 == 1 && (1 as bv32) >> 1 == 0
  {
  }

  lemma MulOneRight(a: bv32)
    ensures Mul(a, ONE) == a
  {
    MulFromSelf(a, ONE);
  }

  // ----- a commutative ring

  lemma {:induction false} MulFromExchange(a: bv32, b: bv32, c: bv32, m: bv32)
    ensures Mul(a, MulFrom(b, c, m)) == MulFrom(b, Mul(a, c), m)
    decreases m
  {
    hide MulX, Pick, Add;
    if m == 0 {
      MulFromZero(a, ONE);
    } else {
      MulFromExchange(a, b, MulX(c), m >> 1);
      MulFromX(a, c, ONE);
      MulFromPick(a, b & m != 0, c, ONE);
      MulFromLinear(a, Pick(b & m != 0, c), MulFrom(b, MulX(c), m >> 1), ONE);
    }
  }

  lemma MulCommutes(a: bv32, b: bv32)
    ensures Mul(a, b) == Mul(b, a)
  {
    MulFromExchange(a, b, ONE, ONE);
    MulOneRight(a);
    MulOneRight(b);
  }

  lemma MulAssociates(a: bv32, b: bv32, c: bv32)
    ensures Mul(Mul(a, b), c) == Mul(a, Mul(b, c))
  {
    hide MulFrom;
    MulCommutes(Mul(a, b), c);
    MulFromExchange(c, a, b, ONE);
    MulCommutes(c, b);
  }

  lemma MulDistributes(a: bv32, b: bv32, c: bv32)
    ensures Mul(a, Add(b, c)) == Add(Mul(a, b), Mul(a, c))
  {
    MulFromLinear(a, b, c, ONE);
  }

  // x^n as a polynomial: multiplying by it is multiplying n times by x.
  lemma {:induction false} XPowIsMul(n: nat, b: bv32)
    ensures XPow(n, b) == Mul(XPow(n, ONE), b)
  {
    hide MulX, MulFrom, Mul;
    MulCommutes(b, XPow(n, ONE));
    if n == 0 {
      MulOneRight(b);
    } else {
      XPowIsMul(n - 1, b);
      MulCommutes(b, XPow(n - 1, ONE));
      MulX1(b, XPow(n - 1, ONE));
    }
  }

  lemma MulX1(a: bv32, b: bv32)
    ensures Mul(a, MulX(b)) == MulX(Mul(a, b))
  {
    MulFromX(a, b, ONE);
  }
}
