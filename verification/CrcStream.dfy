// crc32_z: bytes up to a word boundary, braided blocks, and the bytes left over.
module CrcStream {
  import opened Basics
  import opened Lz77
  import opened CrcPoly
  import opened CrcCombine
  import opened Words
  import opened CrcWords
  import opened CrcBraid
  import opened CrcSwap

  // One block through all the braids.
  method BraidBlock(crcs: seq<bv32>, block: seq<byte>, n: nat, w: nat, table: array2<bv32>) returns (next: seq<bv32>)
    requires 1 <= n && 4 <= w <= 8 && BraidTable(table, n, w)
    requires |crcs| == n && |block| == n * w
    ensures next == Braided(crcs, block, w, 8 * (n * w - w))
  {
    hide XPow, Register, Braided, WordXor, Extend, Load, BraidTable;
    next := [];
    ghost var goal := Braided(crcs, block, w, 8 * (n * w - w));
    BlockFits(n, w);
    var j, at := 0, 0;
    while j < n
      invariant 0 <= j <= n && at == j * w
      invariant |next| == j && forall i | 0 <= i < j :: next[i] == goal[i]
    {
      var c := BraidOne(crcs, block, n, w, table, j, at);
      next := next + [c];
      NextWord(j, w);
      j, at := j + 1, at + w;
    }
  }

  method BraidOne(crcs: seq<bv32>, block: seq<byte>, n: nat, w: nat, table: array2<bv32>, j: nat, at: nat)
    returns (c: bv32)
    requires 1 <= n && 4 <= w <= 8 && BraidTable(table, n, w)
    requires |crcs| == n && |block| == n * w && j < n && at == j * w
    ensures w <= n * w && c == Braided(crcs, block, w, 8 * (n * w - w))[j]
  {
    hide XPow, Register, Braided, WordXor, Extend, Load, BraidTable;
    BlockFits(n, w);
    BraidedAt(crcs, block, w, 8 * (n * w - w), j);
    var word := WordXor(Extend(crcs[j]), Load(block[at..at + w]));
    c := BraidWord(word, n, w, table, crcs[j], block[at..at + w]);
  }

  lemma BlockFits(n: nat, w: nat)
    requires 1 <= n
    ensures w <= n * w
  {
  }

  lemma NextWord(j: nat, w: nat)
    ensures (j + 1) * w == j * w + w
  {
  }

  // The last block, which brings the braids together.
  method LastBlock(crcs: seq<bv32>, block: seq<byte>, n: nat, w: nat, table: array<bv32>) returns (crc: bv32)
    requires 1 <= n && 4 <= w <= 8 && ByteTable(table[..])
    requires |crcs| == n && |block| == n * w
    ensures crc == Add(Together(crcs, w), Register(0, block))
  {
    hide XPow, Add, Register, WordXor, Extend, Load, ByteTable, Together, Absorb;
    BlockFits(n, w);
    AbsorbIsRegister(0, crcs, block, w);
    AddCancels(crcs[0], 0);
    crc := CrcWord(WordXor(Extend(crcs[0]), Load(block[..w])), w, table, crcs[0], block[..w]);
    AbsorbNext(0, crcs, block, w);
    var j, at := 1, w;
    while j < n
      invariant 1 <= j <= n && at == j * w && |block| - at == (n - j) * w
      invariant Absorb(crc, crcs[j..], block[at..], w) == Absorb(0, crcs, block, w)
    {
      AbsorbNext(crc, crcs[j..], block[at..], w);
      NextWord(j, w);
      NextWord(n - j - 1, w);
      BlockFits(n - j, w);
      XorIntoRegister(crcs[j], Load(block[at..at + w]), crc);
      assert block[at..][..w] == block[at..at + w] && block[at..][w..] == block[at + w..];
      assert crcs[j..][1..] == crcs[j + 1..];
      crc := CrcWord(WordXor(WordXor(Extend(crcs[j]), Load(block[at..at + w])), Extend(crc)), w, table,
                     Add(crcs[j], crc), block[at..at + w]);
      j, at := j + 1, at + w;
    }
    AbsorbNone(crc, crcs[j..], block[at..], w);
  }

  lemma AbsorbNext(crc: bv32, crcs: seq<bv32>, block: seq<byte>, w: nat)
    requires |block| == |crcs| * w && crcs != []
    ensures |block| >= w && |block| - w == (|crcs| - 1) * w
    ensures Absorb(crc, crcs, block, w) == Absorb(Register(Add(crcs[0], crc), block[..w]), crcs[1..], block[w..], w)
  {
    assert (|crcs| - 1) * w == |crcs| * w - w;
  }

  lemma AbsorbNone(crc: bv32, crcs: seq<bv32>, block: seq<byte>, w: nat)
    requires |block| == |crcs| * w && crcs == []
    ensures Absorb(crc, crcs, block, w) == crc
  {
  }

  // The registers of the braids stand for s, one whole block further on.
  ghost predicate Stands(crcs: seq<bv32>, n: nat, w: nat, s: bv32) {
    |crcs| == n && Together(crcs, w) == XPow(8 * (n * w), s)
  }

  lemma {:induction false} ZerosTogether(n: nat, w: nat)
    ensures Together(seq(n, i => 0), w) == 0
  {
    hide XPow, Add;
    if n > 0 {
      ZerosTogether(n - 1, w);
      XPowZero(8 * (n * w));
      AddCancels(0, 0);
      assert seq(n, i => 0 as bv32)[1..] == seq(n - 1, i => 0);
    }
  }

  lemma FirstStands(crc: bv32, n: nat, w: nat)
    requires 1 <= n
    ensures Stands([crc] + seq(n - 1, i => 0), n, w, crc)
  {
    hide XPow, Add;
    var crcs := [crc] + seq(n - 1, i => 0 as bv32);
    assert crcs[1..] == seq(n - 1, i => 0 as bv32);
    ZerosTogether(n - 1, w);
    AddCancels(XPow(8 * (n * w), crc), 0);
  }

  lemma BlockStands(crcs: seq<bv32>, n: nat, w: nat, s: bv32, block: seq<byte>)
    requires 1 <= n && Stands(crcs, n, w, s) && |block| == n * w
    ensures w <= n * w
    ensures Stands(Braided(crcs, block, w, 8 * (n * w - w)), n, w, Register(s, block))
  {
    hide XPow, Add, Register, Together, Braided;
    BlockFits(n, w);
    BlockStep(crcs, block, w, 8 * (n * w - w));
    RegisterSplit(s, block);
  }

  lemma LastStands(crcs: seq<bv32>, n: nat, w: nat, s: bv32, block: seq<byte>)
    requires Stands(crcs, n, w, s) && |block| == n * w
    ensures Add(Together(crcs, w), Register(0, block)) == Register(s, block)
  {
    hide XPow, Add, Register, Together;
    RegisterSplit(s, block);
  }

  lemma ReadByte(r: bv32, data: seq<byte>, i: nat)
    requires i < |data|
    ensures Register(r, data[..i + 1]) == Update(Register(r, data[..i]), data[i])
  {
    hide Update;
    assert data[..i + 1][..i] == data[..i];
  }

  lemma ReadBlock(r: bv32, data: seq<byte>, i: nat, j: nat)
    requires i <= j <= |data|
    ensures Register(r, data[..j]) == Register(Register(r, data[..i]), data[i..j])
  {
    hide Register;
    assert data[..j] == data[..i] + data[i..j];
    RegisterConcat(r, data[..i], data[i..j]);
  }

  // Bytes still to go to the next word boundary.
  function ToBoundary(address: nat, w: nat): (r: nat)
    requires 0 < w
    ensures r < w
  {
    (w - address % w) % w
  }

  lemma NearerBoundary(address: nat, w: nat)
    requires (w == 4 || w == 8) && address % w != 0
    ensures ToBoundary(address + 1, w) == ToBoundary(address, w) - 1
  {
    if w == 4 {
      assert (address + 1) % 4 == (address % 4 + 1) % 4;
    } else {
      assert (address + 1) % 8 == (address % 8 + 1) % 8;
    }
  }

  // With n * w + w - 1 bytes at hand and fewer than w of them used to reach a
  // boundary, there is at least one block.
  lemma SomeBlock(len: nat, n: nat, w: nat)
    requires 1 <= n && 1 <= w && len >= n * w
    ensures 1 <= n * w && 1 <= len / (n * w) && len / (n * w) * (n * w) <= len
  {
  }

  lemma NextBlock(blks: nat, size: nat)
    requires 1 <= blks
    ensures blks * size == (blks - 1) * size + size && 0 <= (blks - 1) * size
  {
  }

  // One byte of the stream through the table.
  method ByteStep(table: array<bv32>, data: seq<byte>, i: nat, crc: bv32, ghost r: bv32) returns (next: bv32)
    requires ByteTable(table[..]) && i < |data| && crc == Register(r, data[..i])
    ensures next == Register(r, data[..i + 1])
  {
    hide Register, Update, ByteTable, XorByte, LowByte, ByteIndex;
    TableLength(table[..]);
    ReadByte(r, data, i);
    TableStep(table[..], crc, data[i]);
    next := (crc >> 8) ^ table[ByteIndex(LowByte(XorByte(crc, data[i])))];
  }

  // As many blocks as there are: all but the last braided.
  method Blocks(crc0: bv32, data: seq<byte>, i0: nat, n: nat, w: nat, table: array<bv32>, braidTable: array2<bv32>,
                ghost r: bv32)
    returns (crc: bv32, i: nat)
    requires 1 <= n && (w == 4 || w == 8)
    requires ByteTable(table[..]) && BraidTable(braidTable, n, w)
    requires i0 + n * w <= |data| && crc0 == Register(r, data[..i0])
    ensures i0 < i <= |data| && |data| - i < n * w && crc == Register(r, data[..i])
  {
    hide Register, ByteTable, BraidTable, Stands, Together, Braided, Add;
    SomeBlock(|data| - i0, n, w);
    var size := n * w;
    var blks: nat := (|data| - i0) / size;
    FirstStands(crc0, n, w);
    var crcs := [crc0] + seq(n - 1, j => 0);
    i := i0;
    BlocksLeft(|data| - i0, size);
    NextBlock(blks, size);
    blks := blks - 1;
    while blks != 0
      invariant i0 <= i && i + size <= |data|
      invariant i + blks * size + size <= |data| < i + blks * size + 2 * size
      invariant Stands(crcs, n, w, Register(r, data[..i]))
      decreases blks
    {
      NextBlock(blks, size);
      CrcsLength(crcs, n, w, Register(r, data[..i]));
      BlockStands(crcs, n, w, Register(r, data[..i]), data[i..i + size]);
      ReadBlock(r, data, i, i + size);
      crcs := BraidBlock(crcs, data[i..i + size], n, w, braidTable);
      i := i + size;
      blks := blks - 1;
    }
    CrcsLength(crcs, n, w, Register(r, data[..i]));
    LastStands(crcs, n, w, Register(r, data[..i]), data[i..i + size]);
    ReadBlock(r, data, i, i + size);
    crc := LastBlock(crcs, data[i..i + size], n, w, table);
    i := i + size;
  }

  lemma BlocksLeft(len: nat, size: nat)
    requires 1 <= size
    ensures len / size * size <= len < len / size * size + size
  {
  }

  lemma CrcsLength(crcs: seq<bv32>, n: nat, w: nat, s: bv32)
    requires Stands(crcs, n, w, s)
    ensures |crcs| == n
  {
  }

  // ----- the same on a big-endian machine, in words with their bytes swapped

  ghost predicate Swapped(words: seq<word>, crcs: seq<bv32>, w: nat) {
    |words| == |crcs| && forall i | 0 <= i < |words| :: words[i] == Swap(Extend(crcs[i]), w)
  }

  method BraidOneBig(
    crc: word, block: seq<byte>, n: nat, w: nat, big: array2<word>, ghost table: array2<bv32>, ghost crcs: seq<bv32>,
    j: nat, at: nat)
    returns (c: word)
    requires 1 <= n && (w == 4 || w == 8) && BraidTable(table, n, w) && BigBraidTable(big, table, w)
    requires |crcs| == n && |block| == n * w && j < n && at == j * w && crc == Swap(Extend(crcs[j]), w)
    ensures w <= n * w && c == Swap(Extend(Braided(crcs, block, w, 8 * (n * w - w))[j]), w)
  {
    hide XPow, Register, Braided, WordXor, Extend, Load, LoadBig, Swap, BraidTable, BigBraidTable;
    BlockFits(n, w);
    BraidedAt(crcs, block, w, 8 * (n * w - w), j);
    LoadBigIsSwap(block[at..at + w], w);
    SwapXor(Extend(crcs[j]), Load(block[at..at + w]), w);
    var data := WordXor(crc, LoadBig(block[at..at + w]));
    c := BraidWordBig(data, n, w, big, table, crcs[j], block[at..at + w]);
  }

  method BraidBlockBig(
    words: seq<word>, block: seq<byte>, n: nat, w: nat, big: array2<word>, ghost table: array2<bv32>,
    ghost crcs: seq<bv32>)
    returns (next: seq<word>)
    requires 1 <= n && (w == 4 || w == 8) && BraidTable(table, n, w) && BigBraidTable(big, table, w)
    requires |crcs| == n && |block| == n * w && Swapped(words, crcs, w)
    ensures w <= n * w && Swapped(next, Braided(crcs, block, w, 8 * (n * w - w)), w)
  {
    hide XPow, Register, Braided, Extend, Swap, BraidTable, BigBraidTable;
    next := [];
    BlockFits(n, w);
    ghost var goal := Braided(crcs, block, w, 8 * (n * w - w));
    var j, at := 0, 0;
    while j < n
      invariant 0 <= j <= n && at == j * w
      invariant |next| == j && forall i | 0 <= i < j :: next[i] == Swap(Extend(goal[i]), w)
    {
      var c := BraidOneBig(words[j], block, n, w, big, table, crcs, j, at);
      next := next + [c];
      NextWord(j, w);
      j, at := j + 1, at + w;
    }
  }

  // crc_word_big of a braid, a word of data and what came before.
  method AbsorbBig(
    braid: word, comb: word, bytes: seq<byte>, w: nat, big: array<word>, ghost table: seq<bv32>, ghost r: bv32,
    ghost crc: bv32)
    returns (next: word)
    requires ByteTable(table) && BigTable(big[..], table, w) && |bytes| == w && (w == 4 || w == 8)
    requires braid == Swap(Extend(r), w) && comb == Swap(Extend(crc), w)
    ensures next == Swap(Extend(Register(Add(r, crc), bytes)), w)
  {
    hide WordXor, Extend, Load, LoadBig, Swap, Add, Register, ByteTable, BigTable;
    LoadBigIsSwap(bytes, w);
    SwapXor(Extend(r), Load(bytes), w);
    SwapXor(WordXor(Extend(r), Load(bytes)), Extend(crc), w);
    XorIntoRegister(r, Load(bytes), crc);
    var data := WordXor(WordXor(braid, LoadBig(bytes)), comb);
    next := CrcWordBig(data, w, big, table, Add(r, crc), bytes);
  }

  method LastBlockBig(
    words: seq<word>, block: seq<byte>, n: nat, w: nat, big: array<word>, ghost table: seq<bv32>,
    ghost crcs: seq<bv32>)
    returns (comb: word)
    requires 1 <= n && (w == 4 || w == 8) && ByteTable(table) && BigTable(big[..], table, w)
    requires |crcs| == n && |block| == n * w && Swapped(words, crcs, w)
    ensures comb == Swap(Extend(Add(Together(crcs, w), Register(0, block))), w)
  {
    hide XPow, Add, Register, WordXor, Extend, Load, Swap, ByteTable, BigTable, Together, Absorb;
    BlockFits(n, w);
    AbsorbIsRegister(0, crcs, block, w);
    NothingSwapped(w);
    comb := AbsorbBig(words[0], 0, block[..w], w, big, table, crcs[0], 0);
    AbsorbNext(0, crcs, block, w);
    ghost var crc := Register(Add(crcs[0], 0), block[..w]);
    var j, at := 1, w;
    while j < n
      invariant 1 <= j <= n && at == j * w && |block| - at == (n - j) * w
      invariant comb == Swap(Extend(crc), w)
      invariant Absorb(crc, crcs[j..], block[at..], w) == Absorb(0, crcs, block, w)
    {
      AbsorbNext(crc, crcs[j..], block[at..], w);
      NextWord(j, w);
      NextWord(n - j - 1, w);
      BlockFits(n - j, w);
      assert block[at..][..w] == block[at..at + w] && block[at..][w..] == block[at + w..];
      assert crcs[j..][1..] == crcs[j + 1..];
      comb := AbsorbBig(words[j], comb, block[at..at + w], w, big, table, crcs[j], crc);
      crc := Register(Add(crcs[j], crc), block[at..at + w]);
      j, at := j + 1, at + w;
    }
    AbsorbNone(crc, crcs[j..], block[at..], w);
  }

  lemma NothingSwapped(w: nat)
    ensures Swap(Extend(0), w) == 0
  {
  }

  method BlocksBig(
    crc0: bv32, data: seq<byte>, i0: nat, n: nat, w: nat, bigTable: array<word>, bigBraid: array2<word>,
    ghost table: seq<bv32>, ghost braidTable: array2<bv32>, ghost r: bv32)
    returns (crc: bv32, i: nat)
    requires 1 <= n && (w == 4 || w == 8)
    requires ByteTable(table) && BigTable(bigTable[..], table, w)
    requires BraidTable(braidTable, n, w) && BigBraidTable(bigBraid, braidTable, w)
    requires i0 + n * w <= |data| && crc0 == Register(r, data[..i0])
    ensures i0 < i <= |data| && |data| - i < n * w && crc == Register(r, data[..i])
  {
    hide Register, ByteTable, BraidTable, BigTable, BigBraidTable, Stands, Together, Braided, Add, Swap, Extend,
      Truncate;
    SomeBlock(|data| - i0, n, w);
    var size := n * w;
    var blks: nat := (|data| - i0) / size;
    FirstStands(crc0, n, w);
    NothingSwapped(w);
    ghost var crcs := [crc0] + seq(n - 1, j => 0);
    var words := [Swap(Extend(crc0), w)] + seq(n - 1, j => 0);
    i := i0;
    BlocksLeft(|data| - i0, size);
    NextBlock(blks, size);
    blks := blks - 1;
    while blks != 0
      invariant i0 <= i && i + size <= |data|
      invariant i + blks * size + size <= |data| < i + blks * size + 2 * size
      invariant Stands(crcs, n, w, Register(r, data[..i])) && Swapped(words, crcs, w)
      decreases blks
    {
      NextBlock(blks, size);
      CrcsLength(crcs, n, w, Register(r, data[..i]));
      BlockStands(crcs, n, w, Register(r, data[..i]), data[i..i + size]);
      ReadBlock(r, data, i, i + size);
      words := BraidBlockBig(words, data[i..i + size], n, w, bigBraid, braidTable, crcs);
      crcs := Braided(crcs, data[i..i + size], w, 8 * (n * w - w));
      i := i + size;
      blks := blks - 1;
    }
    CrcsLength(crcs, n, w, Register(r, data[..i]));
    LastStands(crcs, n, w, Register(r, data[..i]), data[i..i + size]);
    ReadBlock(r, data, i, i + size);
    var comb := LastBlockBig(words, data[i..i + size], n, w, bigTable, table, crcs);
    i := i + size;
    SwapBack(Register(r, data[..i]), w);
    crc := Truncate(Swap(comb, w));
  }

  // On a machine of either kind, the checksum a byte at a time.
  method Crc32Z(
    crc0: bv32, buf: Option<seq<byte>>, address: nat, littleEndian: bool, n: nat, w: nat,
    table: array<bv32>, bigTable: array<word>, braidTable: array2<bv32>, bigBraid: array2<word>)
    returns (crc: bv32)
    requires 1 <= n <= 6 && (w == 4 || w == 8)
    requires ByteTable(table[..]) && BigTable(bigTable[..], table[..], w)
    requires BraidTable(braidTable, n, w) && BigBraidTable(bigBraid, braidTable, w)
    ensures crc == if buf.None? then 0 else Crc(crc0, buf.value)
  {
    hide Register, ByteTable, BraidTable, BigTable, BigBraidTable, Not, XorByte, LowByte, ByteIndex, ToBoundary;
    if buf.None? {
      return 0;
    }
    var data := buf.value;
    ghost var r := Not(crc0);
    crc := Not(crc0);
    RegisterNone(r);
    var i := 0;
    if |data| >= n * w + w - 1 {
      ghost var left := ToBoundary(address, w);
      while i < |data| && (address + i) % w != 0
        invariant 0 <= i <= |data| && crc == Register(r, data[..i])
        invariant i + ToBoundary(address + i, w) == left
      {
        NearerBoundary(address + i, w);
        crc := ByteStep(table, data, i, crc, r);
        i := i + 1;
      }
      if littleEndian {
        crc, i := Blocks(crc, data, i, n, w, table, braidTable, r);
      } else {
        crc, i := BlocksBig(crc, data, i, n, w, bigTable, bigBraid, table[..], braidTable, r);
      }
    }
    while |data| - i >= 8
      invariant 0 <= i <= |data| && crc == Register(r, data[..i])
    {
      var stop := i + 8;
      while i < stop
        invariant stop - 8 <= i <= stop <= |data| && crc == Register(r, data[..i])
      {
        crc := ByteStep(table, data, i, crc, r);
        i := i + 1;
      }
    }
    while i < |data|
      invariant 0 <= i <= |data| && crc == Register(r, data[..i])
    {
      crc := ByteStep(table, data, i, crc, r);
      i := i + 1;
    }
    assert data[..i] == data;
    crc := Not(crc);
  }
}
