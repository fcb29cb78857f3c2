// The byte-wise table, and machine words read as strings of bytes: what one
// table look-up does to a register, and what a word of data does to it.
module CrcWords {
  import opened Basics
  import opened Words
  import opened CrcPoly
  import opened CrcCombine

  // ----- crc_table

  // The register whose low byte is i.
  function ByteRegister(i: int): bv32
    requires 0 <= i < 256
  {
    (i as bv8) as bv32
  }

  function ByteIndex(c: byte): (i: int)
    ensures 0 <= i < 256
  {
    c as int
  }

  lemma ByteRoundTrip(c: byte)
    ensures (c as int) as bv8 == c
  {
  }

  lemma ByteRegisterOf(c: byte)
    ensures ByteRegister(ByteIndex(c)) == c as bv32
  {
    ByteRoundTrip(c);
  }

  ghost predicate ByteTable(table: seq<bv32>) {
    |table| == 256 && forall i | 0 <= i < 256 :: table[i] == XPow(8, ByteRegister(i))
  }

  // The same with the bytes of every entry swapped in a word of w bytes.
  ghost predicate BigTable(big: seq<word>, table: seq<bv32>, w: nat) {
    |big| == |table| && forall i | 0 <= i < |table| :: big[i] == Swap(Extend(table[i]), w)
  }

  method MakeCrcTable(w: nat) returns (table: array<bv32>, big: array<word>)
    requires w == 4 || w == 8
    ensures fresh(table) && ByteTable(table[..])
    ensures fresh(big) && BigTable(big[..], table[..], w)
  {
    hide ByteRegister, MulX, Swap, Extend;
    table, big := new bv32[256], new word[256];
    var i := 0;
    while i < 256
      invariant 0 <= i <= 256
      invariant forall k | 0 <= k < i :: table[k] == XPow(8, ByteRegister(k)) && big[k] == Swap(Extend(table[k]), w)
    {
      var p := ByteRegister(i);
      var j := 0;
      while j < 8
        invariant 0 <= j <= 8 && p == XPow(j, ByteRegister(i))
      {
        p := MulX(p);
        j := j + 1;
      }
      table[i] := p;
      big[i] := Swap(Extend(p), w);
      i := i + 1;
    }
  }

  // ----- one byte through the table

  // Multiplying by x^8 when no low bit is set is a shift.
  lemma ShiftByte(v: bv32)
    requires v & 0xff == 0
    ensures XPow(8, v) == Shr8(v)
  {
    hide MulX;
    EightShifts(v);
    EightTimes(v);
  }

  lemma EightTimes(v: bv32)
    ensures XPow(8, v) == MulX(MulX(MulX(MulX(MulX(MulX(MulX(MulX(v))))))))
  {
    hide MulX;
    assert XPow(1, v) == MulX(v);
    assert XPow(2, v) == MulX(XPow(1, v));
    assert XPow(3, v) == MulX(XPow(2, v));
    assert XPow(4, v) == MulX(XPow(3, v));
    assert XPow(5, v) == MulX(XPow(4, v));
    assert XPow(6, v) == MulX(XPow(5, v));
    assert XPow(7, v) == MulX(XPow(6, v));
  }

  lemma EightShifts(v: bv32)
    requires v & 0xff == 0
    ensures MulX(MulX(MulX(MulX(MulX(MulX(MulX(MulX(v)))))))) == v >> 8
  {
  }

  function LowByte(v: bv32): byte {
    (v & 0xff) as bv8
  }

  function Shr8(v: bv32): bv32 {
    v >> 8
  }

  function HighBytes(v: bv32): bv32 {
    v & 0xffff_ff00
  }

  lemma SplitLow(v: bv32)
    ensures v == Add(HighBytes(v), LowByte(v) as bv32)
    ensures HighBytes(v) & 0xff == 0 && Shr8(HighBytes(v)) == Shr8(v)
  {
  }

  // x^8 times a register: shift, and fold the low byte back in.
  lemma TimesX8(v: bv32)
    ensures XPow(8, v) == Add(Shr8(v), XPow(8, LowByte(v) as bv32))
  {
    hide XPow, Add, LowByte, HighBytes, Shr8;
    SplitLow(v);
    XPowLinear(8, HighBytes(v), LowByte(v) as bv32);
    ShiftByte(HighBytes(v));
  }

  lemma ShiftedByteGone(r: bv32, c: byte)
    ensures Shr8(XorByte(r, c)) == Shr8(r)
  {
  }

  lemma TableAdd(table: seq<bv32>, r: bv32, c: byte)
    requires ByteTable(table)
    ensures Add(Shr8(r), table[ByteIndex(LowByte(XorByte(r, c)))]) == Update(r, c)
  {
    hide XPow, Add, LowByte, XorByte, ByteRegister, ByteIndex, Shr8;
    var low := LowByte(XorByte(r, c));
    TimesX8(XorByte(r, c));
    ShiftedByteGone(r, c);
    ByteRegisterOf(low);
  }

  // The table step of crc32_z is eight steps of the bit-serial register.
  lemma TableStep(table: seq<bv32>, r: bv32, c: byte)
    requires ByteTable(table)
    ensures (r >> 8) ^ table[ByteIndex(LowByte(XorByte(r, c)))] == Update(r, c)
  {
    hide XPow, LowByte, XorByte, ByteIndex, Update, ByteTable;
    TableAdd(table, r, c);
  }

  // ----- words, least significant byte first

  function Join(c: byte, high: word): word {
    (c as bv64) | (high << 8)
  }

  // The word that starts with the given bytes.
  function Load(bytes: seq<byte>): word {
    if bytes == [] then 0 else Join(bytes[0], Load(bytes[1..]))
  }

  // The largest word of n bytes.
  function Limit(n: nat): word {
    if n == 0 then 0
    else if n == 1 then 0xff
    else if n == 2 then 0xffff
    else if n == 3 then 0xff_ffff
    else if n == 4 then 0xffff_ffff
    else if n == 5 then 0xff_ffff_ffff
    else if n == 6 then 0xffff_ffff_ffff
    else if n == 7 then 0xff_ffff_ffff_ffff
    else 0xffff_ffff_ffff_ffff
  }

  lemma JoinFits(c: byte, high: word, n: nat)
    requires high <= Limit(n)
    ensures Join(c, high) <= Limit(n + 1)
  {
  }

  lemma {:induction false} LoadFits(bytes: seq<byte>)
    ensures Load(bytes) <= Limit(|bytes|)
  {
    hide Join, Limit;
    if bytes == [] {
      LimitZero();
    } else {
      LoadFits(bytes[1..]);
      JoinFits(bytes[0], Load(bytes[1..]), |bytes| - 1);
    }
  }

  lemma LimitZero()
    ensures Limit(0) == 0
  {
  }

  lemma LimitSeven(n: nat)
    requires n <= 7
    ensures Limit(n) <= 0xff_ffff_ffff_ffff
  {
  }

  // Taking the low byte off a register that has been xored into a word.
  lemma PeelByte(r: bv32, c: byte, high: word)
    requires high <= 0xff_ffff_ffff_ffff
    ensures WordLow(WordXor(Extend(r), Join(c, high))) == LowByte(XorByte(r, c))
    ensures WordShr8(WordXor(Extend(r), Join(c, high))) == WordXor(Extend(Shr8(r)), high)
  {
  }

  lemma PeelLoaded(r: bv32, bytes: seq<byte>)
    requires 0 < |bytes| <= 8
    ensures WordLow(WordXor(Extend(r), Load(bytes))) == LowByte(XorByte(r, bytes[0]))
    ensures WordShr8(WordXor(Extend(r), Load(bytes))) == WordXor(Extend(Shr8(r)), Load(bytes[1..]))
  {
    hide WordXor, WordLow, WordShr8, Extend, LowByte, XorByte, Shr8, Join, Limit;
    LoadFits(bytes[1..]);
    LimitSeven(|bytes| - 1);
    PeelByte(r, bytes[0], Load(bytes[1..]));
  }

  lemma WordXorAssociates(a: word, b: word, c: word)
    ensures WordXor(WordXor(a, b), c) == WordXor(a, WordXor(b, c)) && WordXor(b, c) == WordXor(c, b)
  {
  }

  lemma WordXorSwap(a: word, b: word, c: word)
    ensures WordXor(WordXor(a, b), c) == WordXor(WordXor(a, c), b)
  {
    hide WordXor;
    WordXorAssociates(a, b, c);
    WordXorAssociates(a, c, b);
  }

  lemma ExtendAdd(r: bv32, t: bv32)
    ensures WordXor(Extend(r), Extend(t)) == Extend(Add(r, t))
  {
  }

  lemma XorIntoRegister(r: bv32, high: word, t: bv32)
    ensures WordXor(WordXor(Extend(r), high), Extend(t)) == WordXor(Extend(Add(r, t)), high)
  {
    hide WordXor, Extend, Add;
    WordXorSwap(Extend(r), high, Extend(t));
    ExtendAdd(r, t);
  }

  lemma TruncateRegister(r: bv32)
    ensures Truncate(WordXor(Extend(r), Load([]))) == r
  {
  }

  lemma RegisterFront(r: bv32, data: seq<byte>)
    requires data != []
    ensures Register(r, data) == Register(Update(r, data[0]), data[1..])
  {
    hide Update;
    assert data == data[..1] + data[1..] && data[..1][..0] == [];
    RegisterConcat(r, data[..1], data[1..]);
    assert Register(r, data[..1]) == Update(Register(r, []), data[0]);
  }

  // One round of crc_word: the low byte of the data goes through the table.
  lemma WordStep(table: seq<bv32>, d: word, r: bv32, bytes: seq<byte>)
    requires ByteTable(table) && 0 < |bytes| <= 8
    requires d == WordXor(Extend(r), Load(bytes))
    ensures WordXor(WordShr8(d), Extend(table[ByteIndex(WordLow(d))]))
         == WordXor(Extend(Update(r, bytes[0])), Load(bytes[1..]))
    ensures Register(r, bytes) == Register(Update(r, bytes[0]), bytes[1..])
  {
    hide WordXor, WordLow, WordShr8, Extend, LowByte, XorByte, Shr8, Load, Update, ByteIndex, Add, Register;
    PeelLoaded(r, bytes);
    TableAdd(table, r, bytes[0]);
    XorIntoRegister(Shr8(r), Load(bytes[1..]), table[ByteIndex(LowByte(XorByte(r, bytes[0])))]);
    RegisterFront(r, bytes);
  }

  // crc_word: the register after the w bytes of a word, given the register
  // xored into the word.
  method CrcWord(data0: word, w: nat, table: array<bv32>, ghost r: bv32, ghost bytes: seq<byte>) returns (crc: bv32)
    requires ByteTable(table[..]) && |bytes| == w <= 8
    requires data0 == WordXor(Extend(r), Load(bytes))
    ensures crc == Register(r, bytes)
  {
    hide WordXor, WordLow, WordShr8, Extend, Load, Update, ByteIndex, Register, ByteTable, Truncate;
    TableLength(table[..]);
    var data, k := data0, 0;
    ghost var s := r;
    while k < w
      invariant 0 <= k <= w
      invariant data == WordXor(Extend(s), Load(bytes[k..]))
      invariant Register(s, bytes[k..]) == Register(r, bytes)
    {
      WordStep(table[..], data, s, bytes[k..]);
      s := Update(s, bytes[k]);
      data := WordXor(WordShr8(data), Extend(table[ByteIndex(WordLow(data))]));
      k := k + 1;
    }
    assert bytes[k..] == [];
    TruncateRegister(s);
    RegisterNone(s);
    crc := Truncate(data);
  }

  lemma TableLength(table: seq<bv32>)
    requires ByteTable(table)
    ensures |table| == 256
  {
  }

  lemma RegisterNone(r: bv32)
    ensures Register(r, []) == r
  {
  }
}
