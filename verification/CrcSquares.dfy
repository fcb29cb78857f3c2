// The squares of the entries of x2n_table, each of which is the next entry,
// and the last of which is the first: products of constants, unrolled.
module CrcSquares {
  import opened CrcPoly

  // ----- products of constants, four coefficients at a time

  function MulX2(b: bv32): bv32 {
    MulX(MulX(b))
  }

  function Two(a: bv32, b: bv32, m: bv32): bv32 {
    Add(Pick(a & m != 0, b), Pick(a & (m >> 1) != 0, MulX(b)))
  }

  function Four(a: bv32, b: bv32, m: bv32): bv32 {
    Add(Two(a, b, m), Two(a, MulX2(b), m >> 2))
  }

  lemma Shifts(m: bv32)
    requires m >= 2
    ensures m != 0 && m >> 1 != 0 && (m >> 1) >> 1 == m >> 2
  {
  }

  lemma MulByTwo(a: bv32, b: bv32, m: bv32)
    requires m >= 2
    ensures MulFrom(a, b, m) == Add(Two(a, b, m), MulFrom(a, MulX2(b), m >> 2))
  {
    hide MulX, Pick, Add;
    Shifts(m);
    AddAssociates(Pick(a & m != 0, b), Pick(a & (m >> 1) != 0, MulX(b)), MulFrom(a, MulX2(b), (m >> 1) >> 1));
  }

  lemma TwoShifts(m: bv32)
    requires m >= 8
    ensures m >= 2 && m >> 2 >= 2 && (m >> 2) >> 2 == m >> 4
  {
  }

  lemma MulByFour(a: bv32, b: bv32, m: bv32)
    requires m >= 8
    ensures MulFrom(a, b, m) == Add(Four(a, b, m), MulFrom(a, MulX2(MulX2(b)), m >> 4))
  {
    hide MulX2, Two, Add, MulFrom;
    TwoShifts(m);
    MulByTwo(a, b, m);
    MulByTwo(a, MulX2(b), m >> 2);
    AddAssociates(Two(a, b, m), Two(a, MulX2(b), m >> 2), MulFrom(a, MulX2(MulX2(b)), (m >> 2) >> 2));
  }

  function MulX4(b: bv32): bv32 {
    MulX2(MulX2(b))
  }

  // The product, unrolled: for constants it is a matter of evaluation. Each bi
  // is the one before times x^4.
  lemma MulUnrolled(a: bv32, b: bv32, b1: bv32, b2: bv32, b3: bv32, b4: bv32, b5: bv32, b6: bv32, b7: bv32)
    requires b1 == MulX4(b) && b2 == MulX4(b1) && b3 == MulX4(b2) && b4 == MulX4(b3)
    requires b5 == MulX4(b4) && b6 == MulX4(b5) && b7 == MulX4(b6)
    ensures
      Mul(a, b) ==
        Add(Four(a, b, ONE), Add(Four(a, b1, ONE >> 4), Add(Four(a, b2, ONE >> 8), Add(Four(a, b3, ONE >> 12),
        Add(Four(a, b4, ONE >> 16), Add(Four(a, b5, ONE >> 20), Add(Four(a, b6, ONE >> 24),
        Four(a, b7, ONE >> 28))))))))
  {
    hide Four, MulX2;
    MulByFour(a, b, ONE);
    MulByFour(a, b1, ONE >> 4);
    MulByFour(a, b2, ONE >> 8);
    MulByFour(a, b3, ONE >> 12);
    MulByFour(a, b4, ONE >> 16);
    MulByFour(a, b5, ONE >> 20);
    MulByFour(a, b6, ONE >> 24);
    MulByFour(a, b7, ONE >> 28);
    AddCancels(Four(a, b7, ONE >> 28), 0);
  }

  lemma Square0()
    ensures Mul(0x40000000, 0x40000000) == 0x20000000
  {
    hide MulFrom, Mul;
    MulUnrolled(0x40000000, 0x40000000, 0x04000000, 0x00400000, 0x00040000, 0x00004000,
      0x00000400, 0x00000040, 0x00000004);
  }

  lemma Square1()
    ensures Mul(0x20000000, 0x20000000) == 0x08000000
  {
    hide MulFrom, Mul;
    MulUnrolled(0x20000000, 0x20000000, 0x02000000, 0x00200000, 0x00020000, 0x00002000,
      0x00000200, 0x00000020, 0x00000002);
  }

  lemma Square2()
    ensures Mul(0x08000000, 0x08000000) == 0x00800000
  {
    hide MulFrom, Mul;
    MulUnrolled(0x08000000, 0x08000000, 0x00800000, 0x00080000, 0x00008000, 0x00000800,
      0x00000080, 0x00000008, 0xedb88320);
  }

  lemma Square3()
    ensures Mul(0x00800000, 0x00800000) == 0x00008000
  {
    hide MulFrom, Mul;
    MulUnrolled(0x00800000, 0x00800000, 0x00080000, 0x00008000, 0x00000800, 0x00000080,
      0x00000008, 0xedb88320, 0x0edb8832);
  }

  lemma Square4()
    ensures Mul(0x00008000, 0x00008000) == 0xedb88320
  {
    hide MulFrom, Mul;
    MulUnrolled(0x00008000, 0x00008000, 0x00000800, 0x00000080, 0x00000008, 0xedb88320,
      0x0edb8832, 0x3b83984b, 0xc8d98a08);
  }

  lemma Square5()
    ensures Mul(0xedb88320, 0xedb88320) == 0xb1e6b092
  {
    hide MulFrom, Mul;
    MulUnrolled(0xedb88320, 0xedb88320, 0x0edb8832, 0x3b83984b, 0xc8d98a08, 0xe1351b80,
      0x0e1351b8, 0xed59b63b, 0xc5b428ef);
  }

  lemma Square6()
    ensures Mul(0xb1e6b092, 0xb1e6b092) == 0xa06a2517
  {
    hide MulFrom, Mul;
    MulUnrolled(0xb1e6b092, 0xb1e6b092, 0x30704bc1, 0x1eb014d8, 0xec53826d, 0x8816eaf2,
      0x33ef4e67, 0x533b85da, 0xd3e51bb5);
  }

  lemma Square7()
    ensures Mul(0xa06a2517, 0xa06a2517) == 0xed627dae
  {
    hide MulFrom, Mul;
    MulUnrolled(0xa06a2517, 0xa06a2517, 0x5a03d36d, 0x8373efe2, 0x33591e36, 0x4e87f0bb,
      0xcf89cc87, 0x5cfdedf4, 0x73139f4f);
  }

  lemma Square8()
    ensures Mul(0xed627dae, 0xed627dae) == 0x88d14467
  {
    hide MulFrom, Mul;
    MulUnrolled(0xed627dae, 0xed627dae, 0xaedcc5a2, 0x3183ec92, 0x38761e01, 0x1e307184,
      0x773f4688, 0xeacb7748, 0xe3143454);
  }

  lemma Square9()
    ensures Mul(0x88d14467, 0x88d14467) == 0xd7bbfe6a
  {
    hide MulFrom, Mul;
    MulUnrolled(0x88d14467, 0x88d14467, 0x5888657a, 0xd35e25bf, 0xb0881047, 0x5b0df038,
      0xe8085c23, 0x2859b56e, 0xa28f792e);
  }

  lemma Square10()
    ensures Mul(0xd7bbfe6a, 0xd7bbfe6a) == 0xec447f11
  {
    hide MulFrom, Mul;
    MulUnrolled(0xd7bbfe6a, 0xd7bbfe6a, 0xdbad1c0e, 0xadb033b8, 0xe763801b, 0xc5178b8d,
      0x8a82aa6c, 0x93cce816, 0x448eafd9);
  }

  lemma Square11()
    ensures Mul(0xec447f11, 0xec447f11) == 0x8e7ea170
  {
    hide MulFrom, Mul;
    MulUnrolled(0xec447f11, 0xec447f11, 0x13735795, 0x6a5c648d, 0x8076149c, 0x9363a3f9,
      0xf939a97b, 0xc4f2291b, 0xc72e911d);
  }

  lemma Square12()
    ensures Mul(0x8e7ea170, 0x8e7ea170) == 0x6427800e
  {
    hide MulFrom, Mul;
    MulUnrolled(0x8e7ea170, 0x8e7ea170, 0x08e7ea17, 0x508b0f9d, 0x83db622d, 0x8eee64f6,
      0x455c8717, 0x5450b94d, 0x8396d940);
  }

  lemma Square13()
    ensures Mul(0x6427800e, 0x6427800e) == 0x4d47bae0
  {
    hide MulFrom, Mul;
    MulUnrolled(0x6427800e, 0x6427800e, 0xa6489a78, 0xe7dc0a87, 0x5e78b194, 0x733bca89,
      0xf73c2fec, 0x9417004e, 0xa94b927c);
  }

  lemma Square14()
    ensures Mul(0x4d47bae0, 0x4d47bae0) == 0x09fe548f
  {
    hide MulFrom, Mul;
    MulUnrolled(0x4d47bae0, 0x4d47bae0, 0x04d47bae, 0xa047a5c2, 0x316a5a94, 0x75cae439,
      0xf7533d07, 0x5f7042ec, 0x9e93c69e);
  }

  lemma Square15()
    ensures Mul(0x09fe548f, 0x09fe548f) == 0x83852d0f
  {
    hide MulFrom, Mul;
    MulUnrolled(0x09fe548f, 0x09fe548f, 0xbd221754, 0x7d0e60e5, 0x6cbbb7fa, 0xd01d1897,
      0x5d04a0b5, 0x6ebb1bff, 0xbb5643a3);
  }

  lemma Square16()
    ensures Mul(0x83852d0f, 0x83852d0f) == 0x30362f1a
  {
    hide MulFrom, Mul;
    MulUnrolled(0x83852d0f, 0x83852d0f, 0xb585a0cc, 0x903c98bc, 0x92670b3b, 0xc247c33f,
      0xb1998e2f, 0xb6a46afe, 0xab60a4d7);
  }

  lemma Square17()
    ensures Mul(0x30362f1a, 0x30362f1a) == 0x7b5a9cc3
  {
    hide MulFrom, Mul;
    MulUnrolled(0x30362f1a, 0x30362f1a, 0xd5d5c119, 0xfd52cf55, 0x64be7d01, 0x1bfcf7b4,
      0x77638eeb, 0xcc178b62, 0x37af587e);
  }

  lemma Square18()
    ensures Mul(0x7b5a9cc3, 0x7b5a9cc3) == 0x31fec169
  {
    hide MulFrom, Mul;
    MulUnrolled(0x7b5a9cc3, 0x7b5a9cc3, 0x216c9960, 0x0216c996, 0x4d930dc1, 0x196e20b8,
      0xec2e612b, 0xc5a3559e, 0xac50d721);
  }

  lemma Square19()
    ensures Mul(0x31fec169, 0x31fec169) == 0x9fec022a
  {
    hide MulFrom, Mul;
    MulUnrolled(0x31fec169, 0x31fec169, 0xf3107f52, 0x345f273d, 0x859620a7, 0x585c1336,
      0x4837a06b, 0xcfe2c98a, 0xda288f70);
  }

  lemma Square20()
    ensures Mul(0x9fec022a, 0x9fec022a) == 0x6c8dedc4
  {
    hide MulFrom, Mul;
    MulUnrolled(0x9fec022a, 0x9fec022a, 0xdf2863ca, 0xdb2425d4, 0x7b6e03cd, 0x816532e8,
      0xe5aed00e, 0xae500f78, 0xe75d83d7);
  }

  lemma Square21()
    ensures Mul(0x6c8dedc4, 0x6c8dedc4) == 0x15d6874d
  {
    hide MulFrom, Mul;
    MulUnrolled(0x6c8dedc4, 0x6c8dedc4, 0x70149f4c, 0x9c658b44, 0x7f1a1924, 0x712de002,
      0x3c7cfec8, 0xee7f4ccc, 0x9583367c);
  }

  lemma Square22()
    ensures Mul(0x15d6874d, 0x15d6874d) == 0x5fde7a4e
  {
    hide MulFrom, Mul;
    MulUnrolled(0x15d6874d, 0x15d6874d, 0x878ebaa0, 0x0878ebaa, 0xd6512d52, 0x360b321d,
      0x85b361f5, 0x633067eb, 0xcd52b5f2);
  }

  lemma Square23()
    ensures Mul(0x5fde7a4e, 0x5fde7a4e) == 0xbad90e37
  {
    hide MulFrom, Mul;
    MulUnrolled(0x5fde7a4e, 0x5fde7a4e, 0xa5f705dc, 0x913bb2ed, 0x8fc069fa, 0xde2aa577,
      0x5de7db6b, 0xcebfce3a, 0xda3d5f0b);
  }

  lemma Square24()
    ensures Mul(0xbad90e37, 0xbad90e37) == 0x2e4e5eef
  {
    hide MulFrom, Mul;
    MulUnrolled(0xbad90e37, 0xbad90e37, 0x5ba8e1df, 0xb8077c01, 0x163767a4, 0x77bf37ea,
      0xd1ad5096, 0x40a8b451, 0x19bd9b21);
  }

  lemma Square25()
    ensures Mul(0x2e4e5eef, 0x2e4e5eef) == 0x4eaba214
  {
    hide MulFrom, Mul;
    MulUnrolled(0x2e4e5eef, 0x2e4e5eef, 0xbf5917f2, 0x309bb1b7, 0x530cca27, 0x5535bd9e,
      0xa559b9a1, 0x17e28bfe, 0xa174cac7);
  }

  lemma Square26()
    ensures Mul(0x4eaba214, 0x4eaba214) == 0xa8a472c0
  {
    hide MulFrom, Mul;
    MulUnrolled(0x4eaba214, 0x4eaba214, 0x7236fbb1, 0x1a947fdf, 0xbc14b5e1, 0x16765b3a,
      0xd7b1c65b, 0xc61aafe9, 0xfc6e39ba);
  }

  lemma Square27()
    ensures Mul(0xa8a472c0, 0xa8a472c0) == 0x429a969e
  {
    hide MulFrom, Mul;
    MulUnrolled(0xa8a472c0, 0xa8a472c0, 0x0a8a472c, 0x9bcc66c2, 0x32d2e6a4, 0x75f16ffa,
      0xd189b517, 0x5d1dea6d, 0x83020c72);
  }

  lemma Square28()
    ensures Mul(0x429a969e, 0x429a969e) == 0x148d302a
  {
    hide MulFrom, Mul;
    MulUnrolled(0x429a969e, 0x429a969e, 0xa4234b11, 0x17f524d5, 0x6a1403b9, 0xf6aed37f,
      0xb2d71f2b, 0xc04cc27e, 0xac0e2e5f);
  }

  lemma Square29()
    ensures Mul(0x148d302a, 0x148d302a) == 0xc40ba6d0
  {
    hide MulFrom, Mul;
    MulUnrolled(0x148d302a, 0x148d302a, 0xd79e70ea, 0xdbaf44e6, 0x40089516, 0x49b2e809,
      0xf494bdc4, 0x79950a4c, 0x9cfd9214);
  }

  lemma Square30()
    ensures Mul(0xc40ba6d0, 0xc40ba6d0) == 0xc4e22c3c
  {
    hide MulFrom, Mul;
    MulUnrolled(0xc40ba6d0, 0xc40ba6d0, 0x0c40ba6d, 0x8617d972, 0x330f5d5f, 0xbe8d07c9,
      0xfbe74338, 0xe206f713, 0x28f95fdd);
  }

  lemma Square31()
    ensures Mul(0xc4e22c3c, 0xc4e22c3c) == 0x40000000
  {
    hide MulFrom, Mul;
    MulUnrolled(0xc4e22c3c, 0xc4e22c3c, 0x972ae073, 0x2fab9eab, 0xc99b0a66, 0x412bd1fe,
      0xa4185f67, 0x5a44f4ca, 0xd372eca4);
  }
}
