// Powers of x: the table of x^(2^k) mod p(x), and why its 32 entries are
// enough for every exponent.
module CrcPowers {
  import opened Powers
  import opened CrcPoly
  import opened CrcSquares

  // x^m * x^n == x^(m + n)
  lemma PowersMultiply(m: nat, n: nat)
    ensures Mul(XPow(m, ONE), XPow(n, ONE)) == XPow(m + n, ONE)
  {
    hide MulFrom, Mul;
    XPowIsMul(m, XPow(n, ONE));
    XPowAdd(m, n, ONE);
  }

  // Squaring doubles the exponent.
  lemma SquareOfPower(k: nat, c: bv32)
    requires XPow(Pow2(k), ONE) == c
    ensures XPow(Pow2(k + 1), ONE) == Mul(c, c)
  {
    hide MulFrom, Mul;
    PowersMultiply(Pow2(k), Pow2(k));
  }

  // x^(2^32) == x mod p(x): the exponents that the table covers wrap round.
  lemma PowersWrap()
    ensures XPow(Pow2(32), ONE) == XPow(1, ONE)
  {
    hide MulFrom, Mul, Pow2;
    assert Pow2(0) == 1 && XPow(1, ONE) == 0x40000000 by { Start(); }
    Square0();
    Square1();
    SquareOfPower(0, 0x40000000);
    SquareOfPower(1, 0x20000000);
    Square2();
    Square3();
    SquareOfPower(2, 0x08000000);
    SquareOfPower(3, 0x00800000);
    Square4();
    Square5();
    SquareOfPower(4, 0x00008000);
    SquareOfPower(5, 0xedb88320);
    Square6();
    Square7();
    SquareOfPower(6, 0xb1e6b092);
    SquareOfPower(7, 0xa06a2517);
    Square8();
    Square9();
    SquareOfPower(8, 0xed627dae);
    SquareOfPower(9, 0x88d14467);
    Square10();
    Square11();
    SquareOfPower(10, 0xd7bbfe6a);
    SquareOfPower(11, 0xec447f11);
    Square12();
    Square13();
    SquareOfPower(12, 0x8e7ea170);
    SquareOfPower(13, 0x6427800e);
    Square14();
    Square15();
    SquareOfPower(14, 0x4d47bae0);
    SquareOfPower(15, 0x09fe548f);
    Square16();
    Square17();
    SquareOfPower(16, 0x83852d0f);
    SquareOfPower(17, 0x30362f1a);
    Square18();
    Square19();
    SquareOfPower(18, 0x7b5a9cc3);
    SquareOfPower(19, 0x31fec169);
    Square20();
    Square21();
    SquareOfPower(20, 0x9fec022a);
    SquareOfPower(21, 0x6c8dedc4);
    Square22();
    Square23();
    SquareOfPower(22, 0x15d6874d);
    SquareOfPower(23, 0x5fde7a4e);
    Square24();
    Square25();
    SquareOfPower(24, 0xbad90e37);
    SquareOfPower(25, 0x2e4e5eef);
    Square26();
    Square27();
    SquareOfPower(26, 0x4eaba214);
    SquareOfPower(27, 0xa8a472c0);
    Square28();
    Square29();
    SquareOfPower(28, 0x429a969e);
    SquareOfPower(29, 0x148d302a);
    Square30();
    Square31();
    SquareOfPower(30, 0xc40ba6d0);
    SquareOfPower(31, 0xc4e22c3c);
  }

  lemma Start()
    ensures Pow2(0) == 1 && XPow(1, ONE) == 0x40000000
  {
    assert XPow(1, ONE) == MulX(XPow(0, ONE));
  }

  lemma {:induction false} PowersWrapAll(k: nat)
    ensures XPow(Pow2(k + 32), ONE) == XPow(Pow2(k), ONE)
  {
    hide MulFrom, Mul;
    if k == 0 {
      PowersWrap();
    } else {
      PowersWrapAll(k - 1);
      SquareOfPower(k + 31, XPow(Pow2(k - 1), ONE));
      SquareOfPower(k - 1, XPow(Pow2(k - 1), ONE));
    }
  }

  lemma {:induction false} PowersMod32(k: nat)
    ensures XPow(Pow2(k), ONE) == XPow(Pow2(k % 32), ONE)
  {
    hide Pow2, XPow;
    if k >= 32 {
      PowersMod32(k - 32);
      PowersWrapAll(k - 32);
    }
  }
}
