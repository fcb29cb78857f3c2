// The braided loop of a big-endian machine: every word it handles is the word
// that a little-endian machine would, with its bytes swapped.
module CrcSwap {
  import opened Basics
  import opened CrcPoly
  import opened CrcCombine
  import opened Words
  import opened CrcWords
  import opened CrcBraid

  // ----- words, most significant byte first

  // The word that starts with the given bytes.
  function LoadBig(bytes: seq<byte>): word {
    if bytes == [] then 0 else ShiftIn(LoadBig(bytes[..|bytes| - 1]), bytes[|bytes| - 1])
  }

  function ShiftIn(high: word, c: byte): word {
    (high << 8) | (c as bv64)
  }

  lemma LoadBigIsSwap(bytes: seq<byte>, w: nat)
    requires |bytes| == w && (w == 4 || w == 8)
    ensures LoadBig(bytes) == Swap(Load(bytes), w)
  {
    if w == 4 {
      LoadFour(bytes);
    } else {
      LoadEight(bytes);
    }
  }

  lemma LoadFour(bytes: seq<byte>)
    requires |bytes| == 4
    ensures LoadBig(bytes) == Swap(Load(bytes), 4)
  {
    hide Join, ShiftIn, Swap;
    var b := bytes;
    assert b[..3][..2] == b[..2] && b[..2][..1] == b[..1] && b[..1][..0] == [];
    assert LoadBig(b[..1]) == ShiftIn(0, b[0]);
    assert LoadBig(b[..2]) == ShiftIn(LoadBig(b[..1]), b[1]);
    assert LoadBig(b[..3]) == ShiftIn(LoadBig(b[..2]), b[2]);
    LoadLast(b, 3);
    LoadNext(b, 2);
    LoadNext(b, 1);
    LoadNext(b, 0);
    assert b[0..] == b;
    SwapFour(b[0], b[1], b[2], b[3]);
  }

  lemma LoadEight(bytes: seq<byte>)
    requires |bytes| == 8
    ensures LoadBig(bytes) == Swap(Load(bytes), 8)
  {
    hide Join, ShiftIn, Swap, LoadBig, Load;
    var b := bytes;
    BigEight(b);
    LittleEight(b);
    SwapEight(b[0], b[1], b[2], b[3], b[4], b[5], b[6], b[7]);
  }

  lemma BigEight(b: seq<byte>)
    requires |b| == 8
    ensures LoadBig(b) == ShiftIn(ShiftIn(ShiftIn(ShiftIn(
      ShiftIn(ShiftIn(ShiftIn(ShiftIn(0, b[0]), b[1]), b[2]), b[3]), b[4]), b[5]), b[6]), b[7])
  {
    hide ShiftIn, LoadBig, Load;
    NothingLoaded();
    BigNext(b, 0);
    BigNext(b, 1);
    BigNext(b, 2);
    BigNext(b, 3);
    BigNext(b, 4);
    BigNext(b, 5);
    BigNext(b, 6);
    BigNext(b, 7);
    assert b[..8] == b && b[..0] == [];
  }

  lemma LittleEight(b: seq<byte>)
    requires |b| == 8
    ensures Load(b) == Join(b[0], Join(b[1], Join(b[2], Join(b[3], Join(b[4], Join(b[5], Join(b[6], Join(b[7], 0))))))))
  {
    hide Join, Load;
    LoadLast(b, 7);
    LoadNext(b, 6);
    LoadNext(b, 5);
    LoadNext(b, 4);
    LoadNext(b, 3);
    LoadNext(b, 2);
    LoadNext(b, 1);
    LoadNext(b, 0);
    assert b[0..] == b;
  }

  lemma NothingLoaded()
    ensures LoadBig([]) == 0 && Load([]) == 0
  {
  }

  lemma BigNext(b: seq<byte>, k: nat)
    requires k < |b|
    ensures LoadBig(b[..k + 1]) == ShiftIn(LoadBig(b[..k]), b[k])
  {
    assert b[..k + 1][..k] == b[..k];
  }

  lemma LoadNext(b: seq<byte>, k: nat)
    requires k < |b|
    ensures Load(b[k..]) == Join(b[k], Load(b[k + 1..]))
  {
    assert b[k..][1..] == b[k + 1..];
  }

  lemma LoadLast(b: seq<byte>, k: nat)
    requires k + 1 == |b|
    ensures Load(b[k..]) == Join(b[k], 0)
  {
    LoadNext(b, k);
  }

  lemma SwapFour(b0: byte, b1: byte, b2: byte, b3: byte)
    ensures ShiftIn(ShiftIn(ShiftIn(ShiftIn(0, b0), b1), b2), b3) == Swap(Join(b0, Join(b1, Join(b2, Join(b3, 0)))), 4)
  {
  }

  lemma SwapEight(b0: byte, b1: byte, b2: byte, b3: byte, b4: byte, b5: byte, b6: byte, b7: byte)
    ensures ShiftIn(ShiftIn(ShiftIn(ShiftIn(ShiftIn(ShiftIn(ShiftIn(ShiftIn(0, b0), b1), b2), b3), b4), b5), b6), b7) ==
      Swap(Join(b0, Join(b1, Join(b2, Join(b3, Join(b4, Join(b5, Join(b6, Join(b7, 0)))))))), 8)
  {
  }

  // ----- what fits

  lemma WordFits(r: bv32, bytes: seq<byte>)
    ensures |bytes| <= 4 ==> WordXor(Extend(r), Load(bytes)) <= 0xffff_ffff
  {
    hide WordXor, Extend, Load, Limit;
    LoadFits(bytes);
    if |bytes| <= 4 {
      XorFits(r, Load(bytes), |bytes|);
    }
  }

  lemma XorFits(r: bv32, d: word, n: nat)
    requires n <= 4 && d <= Limit(n)
    ensures WordXor(Extend(r), d) <= 0xffff_ffff
  {
  }

  // ----- crc_word_big

  // One round of it, beside one round of crc_word.
  lemma BigStep(d: word, t: bv32, w: nat)
    requires w == 8 || (w == 4 && d <= 0xffff_ffff)
    ensures WordLow(Shifted(Swap(d, w), w - 1)) == WordLow(d)
    ensures WordXor(Up8(Swap(d, w), w), Swap(Extend(t), w)) == Swap(WordXor(WordShr8(d), Extend(t)), w)
  {
    hide WordLow, WordXor, WordShr8, Up8, Swap, Shifted, Extend;
    SwapByte(d, w - 1, w);
    ShiftedNone(d);
    SwapUp(d, w);
    SwapXor(WordShr8(d), Extend(t), w);
  }

  lemma ShiftedNone(d: word)
    ensures Shifted(d, 0) == d
  {
  }

  method CrcWordBig(
    data0: word, w: nat, big: array<word>, ghost table: seq<bv32>, ghost r: bv32, ghost bytes: seq<byte>)
    returns (data: word)
    requires ByteTable(table) && BigTable(big[..], table, w) && |bytes| == w && (w == 4 || w == 8)
    requires data0 == Swap(WordXor(Extend(r), Load(bytes)), w)
    ensures data == Swap(Extend(Register(r, bytes)), w)
  {
    hide WordXor, WordLow, WordShr8, Extend, Load, Update, ByteIndex, Register, ByteTable, Swap, Shifted, Up8;
    TableLength(table);
    data := data0;
    var k := 0;
    ghost var s, d := r, WordXor(Extend(r), Load(bytes));
    while k < w
      invariant 0 <= k <= w
      invariant data == Swap(d, w) && d == WordXor(Extend(s), Load(bytes[k..]))
      invariant Register(s, bytes[k..]) == Register(r, bytes)
    {
      WordFits(s, bytes[k..]);
      WordStep(table, d, s, bytes[k..]);
      ghost var t := table[ByteIndex(WordLow(d))];
      BigStep(d, t, w);
      data := WordXor(Up8(data, w), BigEntry(big, ByteIndex(WordLow(Shifted(data, w - 1))), table, w));
      d := WordXor(WordShr8(d), Extend(t));
      s := Update(s, bytes[k]);
      k := k + 1;
    }
    assert bytes[k..] == [];
    LoadNothing(s);
    RegisterNone(s);
  }

  function BigEntry(big: array<word>, i: nat, ghost table: seq<bv32>, w: nat): (d: word)
    requires i < 256 && |table| == 256 && BigTable(big[..], table, w)
    reads big
    ensures d == Swap(Extend(table[i]), w)
  {
    assert big[..][i] == big[i];
    big[i]
  }

  lemma LoadNothing(r: bv32)
    ensures WordXor(Extend(r), Load([])) == Extend(r)
  {
  }

  // ----- one braid over one word

  // The register without its k low bytes.
  ghost function Tail(r: bv32, k: nat): bv32 {
    if k == 0 then r else Shr8(Tail(r, k - 1))
  }

  lemma {:induction false} Peeled(r: bv32, bytes: seq<byte>, k: nat)
    requires k <= |bytes| <= 8
    ensures WordShr(WordXor(Extend(r), Load(bytes)), k) == WordXor(Extend(Tail(r, k)), Load(bytes[k..]))
  {
    hide WordXor, Extend, Load, Shr8, WordShr8, WordLow, LowByte, XorByte;
    if k == 0 {
      assert bytes[0..] == bytes;
    } else {
      Peeled(r, bytes, k - 1);
      PeelLoaded(Tail(r, k - 1), bytes[k - 1..]);
      assert bytes[k - 1..][1..] == bytes[k..];
    }
  }

  // What is folded of the bytes from j on, and the entry that byte j adds.
  ghost function FoldFrom(r: bv32, bytes: seq<byte>, e: nat, j: nat): bv32
    requires j <= |bytes| <= e
  {
    Fold(Tail(r, j), bytes[j..], e - j)
  }

  lemma FoldAdds(r: bv32, bytes: seq<byte>, e: nat, j: nat, d: word)
    requires j < |bytes| <= 8 && |bytes| <= e && d == WordXor(Extend(r), Load(bytes))
    ensures FoldFrom(r, bytes, e, j) ==
      Add(XPow(8 * (e - j), ByteRegister(ByteIndex(WordLow(Shifted(d, j))))), FoldFrom(r, bytes, e, j + 1))
  {
    hide XPow, Add, WordXor, WordLow, Shifted, Extend, Load, ByteRegister, ByteIndex, Shr8, LowByte, XorByte, WordShr8,
      WordShr;
    ShiftedIsWordShr(d, j);
    Peeled(r, bytes, j);
    PeelLoaded(Tail(r, j), bytes[j..]);
    ByteRegisterOf(WordLow(Shifted(d, j)));
    assert bytes[j..][1..] == bytes[j + 1..];
  }

  // A row of the tables, from the last byte of the word to the first.
  method BraidWordBig(
    data: word, n: nat, w: nat, big: array2<word>, ghost table: array2<bv32>, ghost r: bv32, ghost bytes: seq<byte>)
    returns (c: word)
    requires 1 <= n && (w == 4 || w == 8) && BraidTable(table, n, w) && BigBraidTable(big, table, w)
    requires |bytes| == w && data == Swap(WordXor(Extend(r), Load(bytes)), w)
    ensures w <= n * w && c == Swap(Extend(XPow(8 * (n * w - w), Register(r, bytes))), w)
  {
    hide XPow, Register, Fold, FoldFrom, WordXor, WordLow, Extend, Load, ByteRegister, ByteIndex, Shr8, Shifted, Swap,
      Add;
    ghost var d := WordXor(Extend(r), Load(bytes));
    ghost var e := n * w;
    WordFits(r, bytes);
    FoldIsRegister(r, bytes, e);
    FoldEnds(r, bytes, e);
    SwapByte(d, 0, w);
    FoldAdds(r, bytes, e, w - 1, d);
    c := big[0, ByteIndex(WordLow(Shifted(data, 0)))];
    assert c == big[w - 1 - (w - 1), ByteIndex(WordLow(Shifted(d, w - 1)))];
    AddCancels(table[w - 1, ByteIndex(WordLow(Shifted(d, w - 1)))], 0);
    var k := 1;
    while k < w
      invariant 1 <= k <= w && c == Swap(Extend(FoldFrom(r, bytes, e, w - k)), w)
    {
      ghost var j := w - 1 - k;
      SwapByte(d, k, w);
      FoldAdds(r, bytes, e, j, d);
      ghost var i := ByteIndex(WordLow(Shifted(d, j)));
      ghost var rest := FoldFrom(r, bytes, e, j + 1);
      AddSwapped(rest, table[j, i], w);
      assert big[k, i] == big[w - 1 - j, i];
      c := WordXor(c, big[k, ByteIndex(WordLow(Shifted(data, k)))]);
      k := k + 1;
    }
  }

  lemma FoldEnds(r: bv32, bytes: seq<byte>, e: nat)
    requires |bytes| <= e
    ensures FoldFrom(r, bytes, e, 0) == Fold(r, bytes, e) && FoldFrom(r, bytes, e, |bytes|) == 0
  {
    assert bytes[0..] == bytes;
  }

  lemma AddSwapped(a: bv32, b: bv32, w: nat)
    ensures WordXor(Swap(Extend(a), w), Swap(Extend(b), w)) == Swap(Extend(Add(b, a)), w)
  {
    hide WordXor, Swap, Extend, Add;
    SwapXor(Extend(a), Extend(b), w);
    ExtendAdd(a, b);
    AddExchanges(a, b);
  }

  lemma AddExchanges(a: bv32, b: bv32)
    ensures Add(a, b) == Add(b, a)
  {
  }
}
