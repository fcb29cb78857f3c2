// What a compressor writes for a block, bit by bit: for every literal, length
// and distance a code word of a table and the extra bits, least significant
// first (section 3.2.5 of RFC 1951); and that reading it through the tables
// gives back what was written.
module InflateCodes {
  import opened Basics
  import opened Lz77
  import opened Powers
  import opened BitStream
  import opened InflateTables

  type Bits = seq<bool>

  // Bits as one number, the first of them the lowest.
  function Number(bits: Bits): nat {
    if bits == [] then 0 else (if bits[0] then 1 else 0) + 2 * Number(bits[1..])
  }

  lemma {:induction false} NumberFits(bits: Bits)
    ensures Number(bits) < Pow2(|bits|)
  {
    if bits != [] {
      NumberFits(bits[1..]);
    }
  }

  lemma {:induction false} NumberConcat(a: Bits, b: Bits)
    ensures Number(a + b) == Number(a) + Pow2(|a|) * Number(b)
  {
    if a == [] {
      assert a + b == b;
    } else {
      assert (a + b)[1..] == a[1..] + b && (a + b)[0] == a[0];
      NumberConcat(a[1..], b);
      MulGroups(2, Pow2(|a| - 1), Number(b));
    }
  }

  // The bits of a string and those after it.
  lemma NumberParts(a: Bits, b: Bits)
    ensures Low(Number(a + b), |a|) == Number(a) && High(Number(a + b), |a|) == Number(b)
  {
    hide Number, Pow2;
    NumberConcat(a, b);
    NumberFits(a);
    DivisionIs(Number(a + b), Pow2(|a|), Number(b), Number(a));
  }

  lemma LowOfNumber(a: Bits, b: Bits, k: nat)
    requires |a| <= k
    ensures Low(Low(Number(a + b), k), |a|) == Number(a)
  {
    hide Number, Low;
    LowOfLow(Number(a + b), |a|, k);
    NumberParts(a, b);
  }

  // ----- the bits of a byte string

  // The n low bits of a number.
  function BitsOfNumber(v: nat, n: nat): (bits: Bits)
    ensures |bits| == n
  {
    if n == 0 then [] else [v % 2 == 1] + BitsOfNumber(v / 2, n - 1)
  }

  function BitsOf(bytes: seq<uint8>): Bits {
    if bytes == [] then [] else BitsOfNumber(bytes[0], 8) + BitsOf(bytes[1..])
  }

  lemma {:induction false} NumberOfBits(v: nat, n: nat)
    requires v < Pow2(n)
    ensures Number(BitsOfNumber(v, n)) == v
  {
    if n > 0 {
      NumberOfBits(v / 2, n - 1);
      assert BitsOfNumber(v, n)[1..] == BitsOfNumber(v / 2, n - 1);
    }
  }

  // The bits of the stream are those of its bytes, from the lowest of each up.
  lemma {:induction false} BytesNumber(bytes: seq<uint8>)
    ensures Number(BitsOf(bytes)) == Value(bytes)
  {
    hide Number, Pow2, BitsOfNumber;
    Pow2Eight(0);
    if bytes == [] {
      NoBits();
    } else {
      BytesNumber(bytes[1..]);
      NumberOfBits(bytes[0], 8);
      NumberConcat(BitsOfNumber(bytes[0], 8), BitsOf(bytes[1..]));
    }
  }

  lemma NoBits()
    ensures Number([]) == 0
  {
  }

  // What the bit buffer holds comes before what is still in the input.
  lemma StreamBits(hold: nat, bits: nat, rest: seq<uint8>)
    requires hold < Pow2(bits)
    ensures Stream(hold, bits, rest) == Number(BitsOfNumber(hold, bits) + BitsOf(rest))
  {
    hide Number, Pow2, BitsOfNumber, Value;
    NumberOfBits(hold, bits);
    BytesNumber(rest);
    NumberConcat(BitsOfNumber(hold, bits), BitsOf(rest));
  }

  // ----- what the operations of a table stand for

  lemma OpValues(k: bv8)
    requires k < 16
    ensures KindOf(0) == Lit && KindOf(0x60) == EndOfBlock && KindOf(0x40) == Invalid
    ensures k != 0 ==> KindOf(k) == Link(k as nat)
    ensures KindOf(0x10 | k) == Base(k as nat)
  {
    NibbleKept(k);
  }

  lemma NibbleKept(k: bv8)
    requires k < 16
    ensures (0x10 | k) & 15 == k && (0x10 | k) & 16 != 0 && 0x10 | k != 0 && k & 16 == 0 && k & 64 == 0
  {
  }

  // ----- code words

  // The table has this entry for the code word: wherever an index starts with
  // its bits, or through a link with those after the first `root` of them.
  ghost predicate HasWord(t: Table, word: Bits, e: Code)
    requires TableOk(t)
  {
    !KindOf(e.op).Link? &&
    if |word| <= t.root then
      e.bits == |word| && forall i | 0 <= i < Pow2(t.root) && Low(i, |word|) == Number(word) :: t.codes[i] == e
    else
      Number(word[..t.root]) < Pow2(t.root) && LinkHasWord(t, t.codes[Number(word[..t.root])], word[t.root..], e)
  }

  ghost predicate LinkHasWord(t: Table, link: Code, tail: Bits, e: Code)
    requires TableOk(t)
  {
    KindOf(link.op).Link? && link.bits == t.root &&
    var width := KindOf(link.op).width;
    && |tail| == e.bits <= width && link.val + Pow2(width) <= |t.codes|
    && forall j | 0 <= j < Pow2(width) && Low(j, |tail|) == Number(tail) :: t.codes[link.val + j] == e
  }

  // Whatever follows it, a code word is found.
  lemma WordFound(t: Table, word: Bits, e: Code, rest: Bits)
    requires TableOk(t) && HasWord(t, word, e)
    ensures FindCode(t, Number(word + rest)) == (e, |word|)
  {
    hide Number, Low, High, Pow2, KindOf, EntryOk;
    var v := Number(word + rest);
    if |word| <= t.root {
      LowOfNumber(word, rest, t.root);
      assert t.codes[Low(v, t.root)] == e;
    } else {
      var head, tail := word[..t.root], word[t.root..];
      assert word + rest == head + (tail + rest);
      NumberParts(head, tail + rest);
      var link := t.codes[Number(head)];
      var width := KindOf(link.op).width;
      LowOfNumber(tail, rest, width);
      assert t.codes[link.val + Low(Number(tail + rest), width)] == e;
    }
  }

  // ----- what is written for one symbol

  datatype Written =
    | WrittenLiteral(word: Bits, entry: Code)
    | WrittenMatch(word: Bits, entry: Code, extra: Bits, distWord: Bits, distEntry: Code, distExtra: Bits)
    | WrittenEnd(word: Bits, entry: Code)

  ghost predicate Fits(lens: Table, dists: Table, w: Written)
    requires TableOk(lens) && TableOk(dists)
  {
    HasWord(lens, w.word, w.entry) &&
    match w
    case WrittenLiteral(_, e) => KindOf(e.op) == Lit
    case WrittenEnd(_, e) => KindOf(e.op) == EndOfBlock
    case WrittenMatch(_, e, extra, distWord, distE, distExtra) =>
      && KindOf(e.op) == Base(|extra|)
      && HasWord(dists, distWord, distE) && KindOf(distE.op) == Base(|distExtra|)
  }

  function BitsFor(w: Written): Bits {
    match w
    case WrittenLiteral(word, _) => word
    case WrittenEnd(word, _) => word
    case WrittenMatch(word, _, extra, distWord, _, distExtra) => word + extra + distWord + distExtra
  }

  // A base and what the extra bits add to it.
  function Meaning(w: Written): Decoded {
    match w
    case WrittenLiteral(_, e) => Sym(Literal((e.val % 256) as bv8))
    case WrittenEnd(_, _) => End
    case WrittenMatch(_, e, extra, _, distE, distExtra) =>
      Sym(Match(distE.val + Number(distExtra), e.val + Number(extra)))
  }

  lemma DistanceRead(dists: Table, distWord: Bits, distE: Code, distExtra: Bits, rest: Bits, len: nat)
    requires TableOk(dists) && HasWord(dists, distWord, distE) && KindOf(distE.op) == Base(|distExtra|)
    ensures DecodeDistance(dists, Number(distWord + (distExtra + rest)), len)
         == (Sym(Match(distE.val + Number(distExtra), len)), |distWord| + |distExtra|)
  {
    hide Number, Low, High, KindOf, TableOk, FindCode, HasWord;
    WordFound(dists, distWord, distE, distExtra + rest);
    NumberParts(distWord, distExtra + rest);
    NumberParts(distExtra, rest);
  }

  // Reading what was written for a symbol gives the symbol, and takes exactly
  // its bits.
  lemma ReadWritten(lens: Table, dists: Table, w: Written, rest: Bits)
    requires TableOk(lens) && TableOk(dists) && Fits(lens, dists, w)
    ensures DecodeOne(lens, dists, Number(BitsFor(w) + rest)) == (Meaning(w), |BitsFor(w)|)
  {
    hide Number, Low, High, KindOf, TableOk, FindCode, HasWord, DecodeDistance;
    match w {
      case WrittenLiteral(word, e) =>
        WordFound(lens, word, e, rest);
      case WrittenEnd(word, e) =>
        WordFound(lens, word, e, rest);
      case WrittenMatch(word, e, extra, distWord, distE, distExtra) =>
        var dist := distWord + (distExtra + rest);
        assert BitsFor(w) + rest == word + (extra + dist);
        WordFound(lens, word, e, extra + dist);
        NumberParts(word, extra + dist);
        NumberParts(extra, dist);
        HighTwice(Number(word + (extra + dist)), |word|, |extra|);
        DistanceRead(dists, distWord, distE, distExtra, rest, e.val + Number(extra));
    }
  }

  // ----- what is written for a block

  function BlockBits(ws: seq<Written>): Bits {
    if ws == [] then [] else BlockBits(ws[..|ws| - 1]) + BitsFor(ws[|ws| - 1])
  }

  ghost predicate AllFit(lens: Table, dists: Table, ws: seq<Written>)
    requires TableOk(lens) && TableOk(dists)
  {
    forall i | 0 <= i < |ws| :: Fits(lens, dists, ws[i])
  }

  lemma {:induction false} BlockBitsConcat(a: seq<Written>, b: seq<Written>)
    ensures BlockBits(a + b) == BlockBits(a) + BlockBits(b)
  {
    hide BitsFor;
    if b == [] {
      assert a + b == a;
    } else {
      assert (a + b)[..|a + b| - 1] == a + b[..|b| - 1];
      BlockBitsConcat(a, b[..|b| - 1]);
    }
  }

  lemma BlockBitsSplit(ws: seq<Written>, n: nat)
    requires n <= |ws|
    ensures BlockBits(ws) == BlockBits(ws[..n]) + BlockBits(ws[n..])
    ensures n < |ws| ==> BlockBits(ws[n..]) == BitsFor(ws[n]) + BlockBits(ws[n + 1..])
  {
    hide BlockBits, BitsFor;
    BlockBitsConcat(ws[..n], ws[n..]);
    assert ws[..n] + ws[n..] == ws;
    if n < |ws| {
      BlockBitsConcat([ws[n]], ws[n + 1..]);
      assert [ws[n]] + ws[n + 1..] == ws[n..];
      BlockOfOne(ws[n]);
    }
  }

  lemma BlockOfOne(w: Written)
    ensures BlockBits([w]) == BitsFor(w)
  {
    hide BitsFor;
    assert [w][..0] == [];
  }

  lemma BlockBitsNext(ws: seq<Written>, n: nat)
    requires n < |ws|
    ensures BlockBits(ws[..n + 1]) == BlockBits(ws[..n]) + BitsFor(ws[n])
  {
    assert ws[..n + 1][..n] == ws[..n];
  }

  // Each thing written is read where it was written.
  lemma {:induction false} ReadBlock(lens: Table, dists: Table, ws: seq<Written>, rest: Bits, n: nat)
    requires TableOk(lens) && TableOk(dists) && AllFit(lens, dists, ws) && n <= |ws|
    ensures Position(lens, dists, Number(BlockBits(ws) + rest), n) == |BlockBits(ws[..n])|
    ensures n < |ws| ==> At(lens, dists, Number(BlockBits(ws) + rest), n) == Meaning(ws[n])
  {
    hide Number, High, TableOk, DecodeOne, Fits, BitsFor, Meaning, BlockBits;
    var stream := Number(BlockBits(ws) + rest);
    if n == 0 {
      NoBlock(ws[..0]);
    } else {
      ReadBlock(lens, dists, ws, rest, n - 1);
      ReadAt(lens, dists, ws, rest, n - 1);
      BlockBitsNext(ws, n - 1);
    }
    if n < |ws| {
      ReadAt(lens, dists, ws, rest, n);
    }
  }

  lemma NoBlock(ws: seq<Written>)
    requires ws == []
    ensures BlockBits(ws) == []
  {
  }

  lemma ReadAt(lens: Table, dists: Table, ws: seq<Written>, rest: Bits, n: nat)
    requires TableOk(lens) && TableOk(dists) && AllFit(lens, dists, ws) && n < |ws|
    ensures DecodeOne(lens, dists, High(Number(BlockBits(ws) + rest), |BlockBits(ws[..n])|))
         == (Meaning(ws[n]), |BitsFor(ws[n])|)
  {
    hide Number, High, TableOk, DecodeOne, Fits, BitsFor, Meaning, BlockBits;
    BlockBitsSplit(ws, n);
    var tail := BlockBits(ws[n + 1..]);
    assert BlockBits(ws) + rest == BlockBits(ws[..n]) + (BitsFor(ws[n]) + (tail + rest));
    NumberParts(BlockBits(ws[..n]), BitsFor(ws[n]) + (tail + rest));
    ReadWritten(lens, dists, ws[n], tail + rest);
  }

  // ----- a whole block

  // What is written stands for these symbols and the end of the block.
  ghost predicate Writes(lens: Table, dists: Table, ws: seq<Written>, syms: seq<Symbol>)
    requires TableOk(lens) && TableOk(dists)
  {
    && AllFit(lens, dists, ws) && |ws| == |syms| + 1 && Meaning(ws[|syms|]) == End
    && forall i | 0 <= i < |syms| :: Meaning(ws[i]) == Sym(syms[i])
  }

  // The decoder's symbols are the encoder's, and after any of them the bits
  // that were written next are those that are read next.
  lemma BlockRead(lens: Table, dists: Table, ws: seq<Written>, syms: seq<Symbol>, rest: Bits)
    requires TableOk(lens) && TableOk(dists) && Writes(lens, dists, ws, syms)
    ensures var stream := Number(BlockBits(ws) + rest);
      && StartsWith(lens, dists, stream, syms) && At(lens, dists, stream, |syms|) == End
      && forall n | 0 <= n <= |ws| ::
           && Position(lens, dists, stream, n) == |BlockBits(ws[..n])|
           && High(stream, Position(lens, dists, stream, n)) == Number(BlockBits(ws[n..]) + rest)
  {
    hide Number, High, TableOk, AllFit, Meaning, BlockBits, At, Position;
    var stream := Number(BlockBits(ws) + rest);
    forall i | 0 <= i < |syms| ensures At(lens, dists, stream, i) == Sym(syms[i]) {
      ReadBlock(lens, dists, ws, rest, i);
    }
    ReadBlock(lens, dists, ws, rest, |syms|);
    forall n | 0 <= n <= |ws|
      ensures Position(lens, dists, stream, n) == |BlockBits(ws[..n])|
      ensures High(stream, |BlockBits(ws[..n])|) == Number(BlockBits(ws[n..]) + rest)
    {
      ReadBlock(lens, dists, ws, rest, n);
      BlockBitsSplit(ws, n);
      assert BlockBits(ws) + rest == BlockBits(ws[..n]) + (BlockBits(ws[n..]) + rest);
      NumberParts(BlockBits(ws[..n]), BlockBits(ws[n..]) + rest);
    }
  }
}
