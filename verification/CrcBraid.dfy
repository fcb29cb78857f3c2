// The braided CRC: n independent registers, each running through every n-th
// word of the data, brought together at the last block.
module CrcBraid {
  import opened Basics
  import opened Lz77
  import opened Powers
  import opened CrcPoly
  import opened Crc32
  import opened CrcCombine
  import opened Words
  import opened CrcWords

  // ----- the braid tables

  ghost predicate BraidTable(table: array2<bv32>, n: nat, w: nat)
    reads table
  {
    && table.Length0 == w && table.Length1 == 256
    && w <= n * w
    && forall k, i | 0 <= k < w && 0 <= i < 256 :: table[k, i] == XPow(8 * (n * w - k), ByteRegister(i))
  }

  function TopByte(i: int): bv32
    requires 0 <= i < 256
  {
    ((i as bv8) as bv32) << 24
  }

  lemma TopByteDown(i: int)
    requires 0 <= i < 256
    ensures XPow(24, TopByte(i)) == ByteRegister(i)
    ensures i != 0 ==> TopByte(i) != 0
  {
    hide XPow;
    var c := i as bv8;
    ShiftedDown(c);
    var v := (c as bv32) << 24;
    ShiftByte(v);
    ShiftByte(v >> 8);
    ShiftByte(v >> 16);
    XPowAdd(8, 8, v);
    XPowAdd(8, 16, v);
    NonzeroByte(i);
  }

  lemma NonzeroByte(i: int)
    requires 0 <= i < 256
    ensures i != 0 ==> i as bv8 != 0
  {
  }

  lemma ShiftedDown(c: byte)
    ensures var v := (c as bv32) << 24;
      && v & 0xff == 0 && (v >> 8) & 0xff == 0 && (v >> 16) & 0xff == 0
      && Shr8(v) == v >> 8 && Shr8(v >> 8) == v >> 16 && Shr8(v >> 16) == c as bv32
      && (c != 0 ==> v != 0)
  {
  }

  // multmodp(i << 24, x^(8 * (e + 3))) is x^(8 * e) times the byte i.
  lemma TableEntry(i: int, e: nat)
    requires 0 <= i < 256
    ensures Mul(TopByte(i), XPow(8 * (e + 3), ONE)) == XPow(8 * e, ByteRegister(i))
  {
    hide XPow, Mul, TopByte, ByteRegister;
    MulCommutes(TopByte(i), XPow(8 * (e + 3), ONE));
    XPowIsMul(8 * (e + 3), TopByte(i));
    XPowAdd(8 * e, 24, TopByte(i));
    TopByteDown(i);
  }

  // The same with the bytes of every entry swapped, in rows the other way round.
  ghost predicate BigBraidTable(big: array2<word>, table: array2<bv32>, w: nat)
    reads big, table
  {
    && big.Length0 == table.Length0 == w && big.Length1 == table.Length1 == 256
    && forall k, i | 0 <= k < w && 0 <= i < 256 :: big[w - 1 - k, i] == Swap(Extend(table[k, i]), w)
  }

  method Braid(n: nat, w: nat, x2n: array<bv32>) returns (ltl: array2<bv32>, big: array2<word>)
    requires 1 <= n && (w == 4 || w == 8)
    requires x2n.Length == 32 && forall k | 0 <= k < 32 :: x2n[k] == XPow(Pow2(k), ONE)
    ensures fresh(ltl) && BraidTable(ltl, n, w)
    ensures fresh(big) && BigBraidTable(big, ltl, w)
  {
    hide XPow, Mul, TopByte, ByteRegister, Pow2, Swap, Extend;
    assert n * w >= w;
    ltl, big := new bv32[w, 256], new word[w, 256];
    var k := 0;
    while k < w
      invariant 0 <= k <= w
      invariant forall j, i | 0 <= j < k && 0 <= i < 256 :: ltl[j, i] == XPow(8 * (n * w - j), ByteRegister(i))
      invariant forall j, i | 0 <= j < k && 0 <= i < 256 :: big[w - 1 - j, i] == Swap(Extend(ltl[j, i]), w)
      modifies ltl, big
    {
      BraidRow(n, w, x2n, ltl, big, k);
      k := k + 1;
    }
  }

  method BraidRow(n: nat, w: nat, x2n: array<bv32>, ltl: array2<bv32>, big: array2<word>, k: nat)
    requires 1 <= n && (w == 4 || w == 8) && k < w
    requires x2n.Length == 32 && forall k | 0 <= k < 32 :: x2n[k] == XPow(Pow2(k), ONE)
    requires ltl.Length0 == w && ltl.Length1 == 256 && big.Length0 == w && big.Length1 == 256
    modifies ltl, big
    ensures k <= n * w && forall i | 0 <= i < 256 ::
      ltl[k, i] == XPow(8 * (n * w - k), ByteRegister(i)) && big[w - 1 - k, i] == Swap(Extend(ltl[k, i]), w)
    ensures forall j, i | 0 <= j < w && j != k && 0 <= i < 256 ::
      ltl[j, i] == old(ltl[j, i]) && big[w - 1 - j, i] == old(big[w - 1 - j, i])
  {
    hide XPow, Mul, TopByte, ByteRegister, Pow2, Swap, Extend;
    assert n * w >= w;
    var e := n * w - k;
    var p := X2nmodp(8 * (e + 3), 0, x2n);
    PowZero(8 * (e + 3));
    ltl[k, 0] := 0;
    big[w - 1 - k, 0] := 0;
    ZeroEntry(8 * e);
    ZeroSwapped(w);
    var i := 1;
    while i < 256
      invariant 1 <= i <= 256
      invariant forall j | 0 <= j < i ::
        ltl[k, j] == XPow(8 * e, ByteRegister(j)) && big[w - 1 - k, j] == Swap(Extend(ltl[k, j]), w)
      invariant forall j, i | 0 <= j < w && j != k && 0 <= i < 256 ::
        ltl[j, i] == old(ltl[j, i]) && big[w - 1 - j, i] == old(big[w - 1 - j, i])
      modifies ltl, big
    {
      TopByteDown(i);
      TableEntry(i, e);
      var q := Multmodp(TopByte(i), p);
      ltl[k, i] := q;
      big[w - 1 - k, i] := Swap(Extend(q), w);
      i := i + 1;
    }
  }

  lemma ZeroSwapped(w: nat)
    ensures Swap(Extend(0), w) == 0
  {
  }

  lemma PowZero(e: nat)
    ensures e * Pow2(0) == e
  {
  }

  lemma ZeroEntry(e: nat)
    ensures XPow(e, ByteRegister(0)) == 0
  {
    XPowZero(e);
  }

  // ----- the bytes of a word through the braid tables

  // Whether r has no more than m bytes.
  predicate Fits(r: bv32, m: nat) {
    m >= 4 || (m == 3 && r <= 0xff_ffff) || (m == 2 && r <= 0xffff) || (m == 1 && r <= 0xff) || (m == 0 && r == 0)
  }

  lemma ShiftFits(r: bv32, m: nat)
    requires 0 < m && Fits(r, m)
    ensures Fits(Shr8(r), m - 1)
  {
  }

  // Each byte of the data xored with the register, times its own power of x:
  // x^(8 * e) for the first, and so on down.
  ghost function Fold(r: bv32, bytes: seq<byte>, e: nat): bv32
    requires |bytes| <= e
    decreases |bytes|
  {
    if bytes == [] then 0
    else Add(XPow(8 * e, LowByte(XorByte(r, bytes[0])) as bv32), Fold(Shr8(r), bytes[1..], e - 1))
  }

  lemma UpdateSplit(r: bv32, c: byte)
    ensures Update(r, c) == Add(XPow(8, LowByte(XorByte(r, c)) as bv32), Shr8(r))
  {
    hide XPow, Add, LowByte, XorByte, Shr8;
    TimesX8(XorByte(r, c));
    ShiftedByteGone(r, c);
    AddAssociates(XPow(8, LowByte(XorByte(r, c)) as bv32), Shr8(r), 0);
  }

  // The register after one byte, as its two parts carried to the end of the data.
  lemma RegisterPeel(r: bv32, bytes: seq<byte>)
    requires bytes != []
    ensures Register(r, bytes)
         == Add(XPow(8 * |bytes|, LowByte(XorByte(r, bytes[0])) as bv32), Register(Shr8(r), bytes[1..]))
  {
    hide XPow, Add, LowByte, XorByte, Shr8, Update, Register;
    var low := LowByte(XorByte(r, bytes[0])) as bv32;
    RegisterFront(r, bytes);
    UpdateSplit(r, bytes[0]);
    RegisterLinear(XPow(8, low), Shr8(r), bytes[1..]);
    XPowAdd(8 * (|bytes| - 1), 8, low);
  }

  // Folding the bytes of a word runs the register through them and carries it
  // on over e - |bytes| more.
  lemma {:induction false} FoldIsRegister(r: bv32, bytes: seq<byte>, e: nat)
    requires |bytes| <= e && Fits(r, |bytes|)
    ensures Fold(r, bytes, e) == XPow(8 * (e - |bytes|), Register(r, bytes))
    decreases |bytes|
  {
    hide XPow, Add, LowByte, XorByte, Shr8, Register;
    var over := 8 * (e - |bytes|);
    if bytes == [] {
      RegisterNone(r);
      XPowZero(over);
    } else {
      var low := LowByte(XorByte(r, bytes[0])) as bv32;
      ShiftFits(r, |bytes|);
      FoldIsRegister(Shr8(r), bytes[1..], e - 1);
      RegisterPeel(r, bytes);
      XPowLinear(over, XPow(8 * |bytes|, low), Register(Shr8(r), bytes[1..]));
      XPowAdd(over, 8 * |bytes|, low);
    }
  }

  // The word moved down by k bytes.
  function WordShr(d: word, k: nat): word {
    if k == 0 then d else WordShr8(WordShr(d, k - 1))
  }

  lemma ShiftedIsWordShr(d: word, k: nat)
    requires k < 8
    ensures Shifted(d, k) == WordShr(d, k)
  {
    hide WordShr8;
    Shifts(d);
    assert WordShr(d, 1) == d >> 8;
    assert WordShr(d, 2) == d >> 16;
    assert WordShr(d, 3) == d >> 24;
    assert WordShr(d, 4) == d >> 32;
    assert WordShr(d, 5) == d >> 40;
    assert WordShr(d, 6) == d >> 48;
  }

  lemma Shifts(d: word)
    ensures WordShr8(d) == d >> 8 && WordShr8(d >> 8) == d >> 16 && WordShr8(d >> 16) == d >> 24
    ensures WordShr8(d >> 24) == d >> 32 && WordShr8(d >> 32) == d >> 40
    ensures WordShr8(d >> 40) == d >> 48 && WordShr8(d >> 48) == d >> 56
  {
  }

  // What is left to fold of a word when c has been taken in: word is the data
  // word moved down past the bytes already done, and r the register likewise.
  ghost predicate Folding(c: bv32, word: word, r: bv32, bytes: seq<byte>, e: nat, total: bv32) {
    && |bytes| <= e && |bytes| <= 8
    && word == WordXor(Extend(r), Load(bytes))
    && Add(c, Fold(r, bytes, e)) == total
  }

  lemma FoldNext(c: bv32, word: word, r: bv32, bytes: seq<byte>, e: nat, total: bv32, entry: bv32)
    requires Folding(c, word, r, bytes, e, total) && bytes != []
    requires entry == XPow(8 * e, ByteRegister(ByteIndex(WordLow(word))))
    ensures Folding(c ^ entry, WordShr8(word), Shr8(r), bytes[1..], e - 1, total)
  {
    hide XPow, Add, LowByte, XorByte, Shr8, WordXor, WordLow, WordShr8, Extend, Load, ByteRegister, ByteIndex;
    PeelLoaded(r, bytes);
    ByteRegisterOf(WordLow(word));
    AddIsXor(c, entry);
    AddAssociates(c, entry, Fold(Shr8(r), bytes[1..], e - 1));
  }

  lemma FoldingDone(c: bv32, word: word, r: bv32, bytes: seq<byte>, e: nat, total: bv32)
    requires bytes == [] && Folding(c, word, r, bytes, e, total)
    ensures c == total
  {
    AddCancels(c, 0);
  }

  lemma FoldingStarts(c: bv32, word: word, r: bv32, bytes: seq<byte>, e: nat)
    requires |bytes| <= e && |bytes| <= 8 && word == WordXor(Extend(r), Load(bytes))
    ensures Folding(0, word, r, bytes, e, Fold(r, bytes, e))
  {
    AddCancels(Fold(r, bytes, e), 0);
  }

  // One braid over one word: the register after the word, carried on over the
  // words of the other n - 1 braids.
  method BraidWord(word: word, n: nat, w: nat, table: array2<bv32>, ghost r: bv32, ghost bytes: seq<byte>)
    returns (c: bv32)
    requires 1 <= n && 4 <= w <= 8 && BraidTable(table, n, w)
    requires |bytes| == w && word == WordXor(Extend(r), Load(bytes))
    ensures c == XPow(8 * (n * w - w), Register(r, bytes))
  {
    hide XPow, Register, Folding, Fold, WordXor, WordLow, WordShr8, Extend, Load, ByteRegister, ByteIndex, Shr8,
      Shifted;
    ghost var total := Fold(r, bytes, n * w);
    FoldIsRegister(r, bytes, n * w);
    FoldingStarts(0, word, r, bytes, n * w);
    assert WordShr(word, 0) == word && WordShr(word, 1) == WordShr8(word);
    ghost var s := Shr8(r);
    c := table[0, ByteIndex(WordLow(word))];
    AddCancels(c, 0);
    AddIsXor(0, c);
    FoldNext(0, word, r, bytes, n * w, total, c);
    var k := 1;
    while k < w
      invariant 1 <= k <= w
      invariant k < w ==> Folding(c, WordShr(word, k), s, bytes[k..], n * w - k, total)
      invariant k == w ==> c == total
    {
      ShiftedIsWordShr(word, k);
      var entry := table[k, ByteIndex(WordLow(Shifted(word, k)))];
      FoldNext(c, WordShr(word, k), s, bytes[k..], n * w - k, total, entry);
      c := c ^ entry;
      s := Shr8(s);
      assert bytes[k..][1..] == bytes[k + 1..];
      if k + 1 == w {
        FoldingDone(c, WordShr8(WordShr(word, k)), s, bytes[k + 1..], n * w - k - 1, total);
      }
      k := k + 1;
    }
  }

  // ----- n braids over one block

  // The registers of the braids, each carried to the end of its turn: what they
  // amount to together.
  ghost function Together(crcs: seq<bv32>, w: nat): bv32 {
    if crcs == [] then 0 else Add(XPow(8 * (|crcs| * w), crcs[0]), Together(crcs[1..], w))
  }

  // Every braid over its own word of the block, then carried over e bits.
  ghost function Braided(crcs: seq<bv32>, block: seq<byte>, w: nat, e: nat): (r: seq<bv32>)
    requires |block| == |crcs| * w
    ensures |r| == |crcs|
    decreases |crcs|
  {
    if crcs == [] then []
    else
      assert (|crcs| - 1) * w == |crcs| * w - w;
      [XPow(e, Register(crcs[0], block[..w]))] + Braided(crcs[1..], block[w..], w, e)
  }

  lemma {:induction false} BraidedAt(crcs: seq<bv32>, block: seq<byte>, w: nat, e: nat, j: nat)
    requires |block| == |crcs| * w && j < |crcs|
    ensures 0 <= j * w <= j * w + w <= |block|
    ensures Braided(crcs, block, w, e)[j] == XPow(e, Register(crcs[j], block[j * w..j * w + w]))
    decreases j
  {
    hide XPow, Register, Braided;
    BraidedUnfold(crcs, block, w, e);
    if j > 0 {
      BraidedAt(crcs[1..], block[w..], w, e, j - 1);
      WordOfTail(block, w, j);
    }
  }

  lemma WordOfTail(block: seq<byte>, w: nat, j: nat)
    requires 0 < j && w <= |block| && 0 <= (j - 1) * w + w <= |block| - w
    ensures j * w == (j - 1) * w + w && 0 <= j * w <= j * w + w <= |block|
    ensures block[w..][(j - 1) * w..(j - 1) * w + w] == block[j * w..j * w + w]
  {
    var at := (j - 1) * w;
    assert at + w == j * w;
    assert block[w..][at..at + w] == block[at + w..at + w + w];
  }

  lemma RegisterWord(r: bv32, block: seq<byte>, w: nat)
    requires w <= |block|
    ensures Register(r, block) == Register(Register(r, block[..w]), block[w..])
  {
    hide Register;
    assert block == block[..w] + block[w..];
    RegisterConcat(r, block[..w], block[w..]);
  }

  lemma XPowRegroup(a: nat, b: nat, c: nat, d: nat, x: bv32)
    requires a + b == c + d
    ensures XPow(a, XPow(b, x)) == XPow(c, XPow(d, x))
  {
    hide XPow;
    XPowAdd(a, b, x);
    XPowAdd(c, d, x);
  }

  // What one braid adds, with the powers of x brought together: w bits of word,
  // m bits still to come before the word is over, rest after that.
  lemma BraidAdds(c: bv32, r: bv32, w: nat, m: nat, rest: nat, e: nat)
    requires m == rest + w
    ensures XPow(m, XPow(e, Add(XPow(w, c), r))) == XPow(e + w, Add(XPow(m, c), XPow(rest, r)))
  {
    hide XPow, Add;
    XPowAdd(m, e, Add(XPow(w, c), r));
    XPowLinear(m + e, XPow(w, c), r);
    XPowLinear(e + w, XPow(m, c), XPow(rest, r));
    XPowRegroup(m + e, w, e + w, m, c);
    XPowAdd(e + w, rest, r);
    assert e + w + rest == m + e;
  }

  // Braiding a block reads it: the registers together are then what they were
  // with the block run through, e and one word further on.
  lemma {:induction false} BlockStep(crcs: seq<bv32>, block: seq<byte>, w: nat, e: nat)
    requires |block| == |crcs| * w
    ensures Together(Braided(crcs, block, w, e), w) == XPow(e + 8 * w, Add(Together(crcs, w), Register(0, block)))
    decreases |crcs|
  {
    hide XPow, Add, Register;
    if crcs == [] {
      RegisterNone(0);
      AddCancels(0, 0);
      XPowZero(e + 8 * w);
    } else {
      var rest := (|crcs| - 1) * w;
      assert rest == |crcs| * w - w;
      var word, tail := block[..w], block[w..];
      BlockStep(crcs[1..], tail, w, e);
      RegisterSplit(crcs[0], word);
      BraidAdds(crcs[0], Register(0, word), 8 * w, 8 * (|crcs| * w), 8 * rest, e);
      RegisterWord(0, block, w);
      RegisterSplit(Register(0, word), tail);
      var a, b := XPow(8 * (|crcs| * w), crcs[0]), XPow(8 * rest, Register(0, word));
      XPowLinear(e + 8 * w, Add(a, b), Add(Together(crcs[1..], w), Register(0, tail)));
      AddExchange(a, b, Together(crcs[1..], w), Register(0, tail));
      BraidedUnfold(crcs, block, w, e);
    }
  }

  lemma BraidedUnfold(crcs: seq<bv32>, block: seq<byte>, w: nat, e: nat)
    requires |block| == |crcs| * w && crcs != []
    ensures |block| >= w && |block[w..]| == (|crcs| - 1) * w
    ensures Braided(crcs, block, w, e)[0] == XPow(e, Register(crcs[0], block[..w]))
    ensures Braided(crcs, block, w, e)[1..] == Braided(crcs[1..], block[w..], w, e)
  {
    assert (|crcs| - 1) * w == |crcs| * w - w;
  }

  // The last block: each word takes in its braid and what came before it.
  ghost function Absorb(crc: bv32, crcs: seq<bv32>, block: seq<byte>, w: nat): bv32
    requires |block| == |crcs| * w
    decreases |crcs|
  {
    if crcs == [] then crc
    else
      assert (|crcs| - 1) * w == |crcs| * w - w;
      Absorb(Register(Add(crcs[0], crc), block[..w]), crcs[1..], block[w..], w)
  }

  lemma {:induction false} AbsorbIsRegister(crc: bv32, crcs: seq<bv32>, block: seq<byte>, w: nat)
    requires |block| == |crcs| * w
    ensures Absorb(crc, crcs, block, w) == Add(Together(crcs, w), Register(crc, block))
    decreases |crcs|
  {
    hide XPow, Add, Register;
    if crcs == [] {
      RegisterNone(crc);
      AddCancels(crc, 0);
    } else {
      var rest := (|crcs| - 1) * w;
      assert rest == |crcs| * w - w;
      var word, tail := block[..w], block[w..];
      AbsorbIsRegister(Register(Add(crcs[0], crc), word), crcs[1..], tail, w);
      RegisterLinear(crcs[0], crc, word);
      RegisterLinear(XPow(8 * w, crcs[0]), Register(crc, word), tail);
      XPowAdd(8 * rest, 8 * w, crcs[0]);
      RegisterWord(crc, block, w);
      AddAssociates(Together(crcs[1..], w), XPow(8 * (|crcs| * w), crcs[0]), Register(crc, block));
    }
  }
}
