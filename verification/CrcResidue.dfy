// What the checksum is, said without its register: appended to the data it
// was taken of, least significant byte first, it leaves the same value for
// every string; and its value for the nine digits.
module CrcResidue {
  import opened Basics
  import opened CrcPoly
  import opened CrcCombine
  import opened CrcWords

  function LittleEndian(v: bv32): seq<byte> {
    [(v & 0xff) as bv8, ((v >> 8) & 0xff) as bv8, ((v >> 16) & 0xff) as bv8, (v >> 24) as bv8]
  }

  // One byte of v into a register that v has been added to from there up.
  lemma NextByte(r: bv32, v: bv32)
    ensures XPow(8, Add(r, v)) == Add(Update(r, LowByte(v)), Shr8(v))
  {
    hide XPow, Add, LowByte, HighBytes, Shr8, XorByte;
    SplitLow(v);
    XorByteIs(r, LowByte(v));
    AddAssociates(r, LowByte(v) as bv32, HighBytes(v));
    AddAssociates(HighBytes(v), LowByte(v) as bv32, 0);
    XPowLinear(8, XorByte(r, LowByte(v)), HighBytes(v));
    ShiftByte(HighBytes(v));
  }

  lemma XorByteIs(r: bv32, c: byte)
    ensures XorByte(r, c) == Add(r, c as bv32)
  {
  }

  lemma FourBytes(v: bv32)
    ensures LittleEndian(v) == [LowByte(v), LowByte(Shr8(v)), LowByte(Shr8(Shr8(v))), LowByte(Shr8(Shr8(Shr8(v))))]
    ensures Shr8(Shr8(Shr8(Shr8(v)))) == 0
  {
    ThirdByte(v);
    FourthByte(v);
  }

  lemma ThirdByte(v: bv32)
    ensures ((v >> 16) & 0xff) as bv8 == ((v >> 8 >> 8) & 0xff) as bv8
  {
  }

  lemma FourthByte(v: bv32)
    ensures (v >> 24) as bv8 == ((v >> 8 >> 8 >> 8) & 0xff) as bv8
    ensures v >> 8 >> 8 >> 8 >> 8 == 0
  {
  }

  // Reading the four bytes of v is adding v and multiplying by x^32.
  lemma ReadFour(r: bv32, v: bv32)
    ensures Register(r, LittleEndian(v)) == XPow(8, XPow(8, XPow(8, XPow(8, Add(r, v)))))
  {
    hide XPow, Add, LowByte, Shr8, Update, LittleEndian;
    FourBytes(v);
    var v1, v2, v3 := Shr8(v), Shr8(Shr8(v)), Shr8(Shr8(Shr8(v)));
    var r1 := Update(r, LowByte(v));
    var r2 := Update(r1, LowByte(v1));
    var r3 := Update(r2, LowByte(v2));
    NextByte(r, v);
    NextByte(r1, v1);
    NextByte(r2, v2);
    NextByte(r3, v3);
    AddCancels(Update(r3, LowByte(v3)), 0);
    ReadEach(r, LittleEndian(v));
  }

  lemma ReadEach(r: bv32, b: seq<byte>)
    requires |b| == 4
    ensures Register(r, b) == Update(Update(Update(Update(r, b[0]), b[1]), b[2]), b[3])
  {
    hide Update;
    assert b[..3][..2] == b[..2] && b[..2][..1] == b[..1] && b[..1][..0] == [];
    assert Register(r, b[..1]) == Update(r, b[0]);
    assert Register(r, b[..2]) == Update(Register(r, b[..1]), b[1]);
    assert Register(r, b[..3]) == Update(Register(r, b[..2]), b[2]);
  }

  lemma EightTimesIs(v: bv32, t: bv32)
    requires MulX(MulX(MulX(MulX(MulX(MulX(MulX(MulX(v)))))))) == t
    ensures XPow(8, v) == t
  {
    EightTimes(v);
  }

  lemma OnesTimesX32()
    ensures XPow(8, XPow(8, XPow(8, XPow(8, 0xffff_ffff)))) == 0xdebb_20e3
  {
    hide XPow;
    EightTimesIs(0xffff_ffff, 0x2dfd_1072);
    EightTimesIs(0x2dfd_1072, 0xbe26_ed00);
    EightTimesIs(0xbe26_ed00, 0x00be_26ed);
    EightTimesIs(0x00be_26ed, 0xdebb_20e3);
  }

  lemma Conditioned(r: bv32)
    ensures Add(r, Not(r)) == 0xffff_ffff && Not(0xdebb_20e3) == 0x2144_df1c && Not(Not(r)) == r
  {
  }

  // The checksum of any data with its own checksum behind it.
  lemma Residue(crc: bv32, data: seq<byte>)
    ensures Crc(crc, data + LittleEndian(Crc(crc, data))) == 0x2144_df1c
  {
    hide XPow, Add, Register, Not, LittleEndian;
    var r := Register(Not(crc), data);
    RegisterConcat(Not(crc), data, LittleEndian(Not(r)));
    ReadFour(r, Not(r));
    Conditioned(r);
    OnesTimesX32();
  }

  lemma DigitStep(r: bv32, c: byte, next: bv32)
    requires MulX(MulX(MulX(MulX(MulX(MulX(MulX(MulX(r ^ (c as bv32))))))))) == next
    ensures Update(r, c) == next
  {
    hide MulX;
    EightTimes(r ^ (c as bv32));
  }

  lemma ReadNext(r: bv32, data: seq<byte>, c: byte)
    ensures Register(r, data + [c]) == Update(Register(r, data), c)
  {
    hide Update;
    assert (data + [c])[..|data|] == data;
  }

  const DIGITS: seq<byte> := [0x31, 0x32, 0x33, 0x34, 0x35, 0x36, 0x37, 0x38, 0x39]

  lemma FirstDigits(n: nat)
    requires 0 < n <= 9
    ensures DIGITS[..n] == DIGITS[..n - 1] + [DIGITS[n - 1]]
  {
  }

  lemma Digit(n: nat, r: bv32, next: bv32)
    requires n < 9 && Register(0xffff_ffff, DIGITS[..n]) == r && Update(r, DIGITS[n]) == next
    ensures Register(0xffff_ffff, DIGITS[..n + 1]) == next
  {
    hide Update, Register;
    FirstDigits(n + 1);
    ReadNext(0xffff_ffff, DIGITS[..n], DIGITS[n]);
  }

  // The check value of CRC-32: the checksum of "123456789".
  lemma NineDigits()
    ensures Crc(0, DIGITS) == 0xcbf4_3926
  {
    hide Update, Register;
    RegisterNone(0xffff_ffff);
    DigitStep(0xffff_ffff, 0x31, 0x7c23_1048);
    Digit(0, 0xffff_ffff, 0x7c23_1048);
    DigitStep(0x7c23_1048, 0x32, 0xb0ac_bb32);
    Digit(1, 0x7c23_1048, 0xb0ac_bb32);
    DigitStep(0xb0ac_bb32, 0x33, 0x77b7_9c2d);
    Digit(2, 0xb0ac_bb32, 0x77b7_9c2d);
    DigitStep(0x77b7_9c2d, 0x34, 0x641c_1f5c);
    Digit(3, 0x77b7_9c2d, 0x641c_1f5c);
    DigitStep(0x641c_1f5c, 0x35, 0x340a_c5e3);
    Digit(4, 0x641c_1f5c, 0x340a_c5e3);
    DigitStep(0x340a_c5e3, 0x36, 0xf68d_2c9e);
    Digit(5, 0x340a_c5e3, 0xf68d_2c9e);
    DigitStep(0xf68d_2c9e, 0x37, 0xaffc_9660);
    Digit(6, 0xf68d_2c9e, 0xaffc_9660);
    DigitStep(0xaffc_9660, 0x38, 0x651f_2550);
    Digit(7, 0xaffc_9660, 0x651f_2550);
    DigitStep(0x651f_2550, 0x39, 0x340b_c6d9);
    Digit(8, 0x651f_2550, 0x340b_c6d9);
    assert DIGITS[..9] == DIGITS;
  }

  // A zero byte in front is seen.
  lemma ZeroByte()
    ensures Crc(0, [0]) == 0xd202_ef8d
  {
    hide Update;
    DigitStep(0xffff_ffff, 0, 0x2dfd_1072);
    assert Register(0xffff_ffff, [0]) == Update(Register(0xffff_ffff, []), 0);
  }
}
