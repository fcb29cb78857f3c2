// Stored blocks (section 3.2.4 of RFC 1951): a block header, padding to a byte,
// the length and its complement, and the bytes themselves.
module StoredBlocks {
  import opened Basics
  import opened Lz77
  import opened Powers
  import opened BitStream

  datatype Block = Block(last: bool, data: seq<uint8>)

  // LEN and NLEN
  function Lengths(n: nat): seq<uint8> {
    [n % 256, n / 256 % 256, 255 - n % 256, 255 - n / 256 % 256]
  }

  // The bits still to be written, the header's three bits, and padding.
  function Lead(buf: nat, valid: nat, last: bool): (lead: seq<uint8>)
    ensures |lead| == if valid + 3 > 8 then 2 else 1
  {
    var v := buf + (if last then Pow2(valid) else 0);
    if valid + 3 > 8 then [v % 256, v / 256 % 256] else [v % 256]
  }

  function BlockBytes(buf: nat, valid: nat, block: Block): seq<uint8> {
    Lead(buf, valid, block.last) + Lengths(|block.data|) + block.data
  }

  // The bytes of some blocks, the first of them after `valid` bits in `buf`.
  function Encoded(buf: nat, valid: nat, blocks: seq<Block>): seq<uint8> {
    if blocks == [] then []
    else if |blocks| == 1 then BlockBytes(buf, valid, blocks[0])
    else Encoded(buf, valid, blocks[..|blocks| - 1]) + BlockBytes(0, 0, blocks[|blocks| - 1])
  }

  function Payload(blocks: seq<Block>): seq<uint8> {
    if blocks == [] then [] else Payload(blocks[..|blocks| - 1]) + blocks[|blocks| - 1].data
  }

  // Blocks of at most 65535 bytes, none of them the last but the last.
  ghost predicate WellFormed(blocks: seq<Block>) {
    && (forall i | 0 <= i < |blocks| :: |blocks[i].data| <= 65535)
    && (forall i | 0 <= i < |blocks| - 1 :: !blocks[i].last)
  }

  lemma EncodedNext(buf: nat, valid: nat, blocks: seq<Block>, block: Block)
    ensures Encoded(buf, valid, blocks + [block]) ==
      Encoded(buf, valid, blocks) + BlockBytes(if blocks == [] then buf else 0, if blocks == [] then valid else 0,
        block)
    ensures Payload(blocks + [block]) == Payload(blocks) + block.data
  {
    var all := blocks + [block];
    assert all[..|all| - 1] == blocks;
  }

  // ----- a decoder, for blocks of which the first begins at bit `valid`

  // The header's bits and those after them.
  function HeaderBits(bytes: seq<uint8>, valid: nat, lead: nat): nat
    requires 1 <= lead <= |bytes|
  {
    High(ByteValue(bytes[0]) + (if lead == 2 then 256 * ByteValue(bytes[1]) else 0), valid)
  }

  // What the first block says, and what follows it.
  function DecodeOne(bytes: seq<uint8>, valid: nat): Option<(Block, seq<uint8>)> {
    var lead := if valid + 3 > 8 then 2 else 1;
    if |bytes| < lead + 4 || HeaderBits(bytes, valid, lead) / 2 % 4 != 0 then None
    else
      var len: nat := ByteValue(bytes[lead]) + 256 * ByteValue(bytes[lead + 1]);
      if bytes[lead + 2] != 255 - bytes[lead] || bytes[lead + 3] != 255 - bytes[lead + 1] || |bytes| < lead + 4
        + len then
        None
      else
        Some((Block(HeaderBits(bytes, valid, lead) % 2 == 1, bytes[lead + 4..lead + 4 + len]),
          bytes[lead + 4 + len..]))
  }

  function Decode(bytes: seq<uint8>, valid: nat): Option<seq<Block>>
    decreases |bytes|
  {
    if bytes == [] then Some([])
    else
      match DecodeOne(bytes, valid)
      case None => None
      case Some((block, rest)) =>
        match Decode(rest, 0)
        case None => None
        case Some(blocks) => Some([block] + blocks)
  }

  lemma DecodeBlock(buf: nat, valid: nat, block: Block, rest: seq<uint8>)
    requires |block.data| <= 65535 && valid < 8 && buf < Pow2(valid)
    ensures DecodeOne(BlockBytes(buf, valid, block) + rest, valid) == Some((block, rest))
  {
    hide Pow2, High, Lead;
    var n, lead := |block.data|, if valid + 3 > 8 then 2 else 1;
    var bytes := BlockBytes(buf, valid, block) + rest;
    DivSplits(n, 256, n / 256, n % 256);
    HighByte(n);
    LeadBits(buf, valid, block.last);
    assert bytes[..lead] == Lead(buf, valid, block.last);
    assert bytes[lead + 4..lead + 4 + n] == block.data && bytes[lead + 4 + n..] == rest;
  }

  // Above the bits that were waiting there are only the header's three.
  lemma LeadBits(buf: nat, valid: nat, last: bool)
    requires valid < 8 && buf < Pow2(valid)
    ensures var lead := Lead(buf, valid, last);
      HeaderBits(lead, valid, |lead|) == if last then 1 else 0
  {
    hide Pow2, High;
    Pow2Adds(valid, 1);
    Pow2Grows(valid + 1, 8);
    SmallPowers();
    var v := buf + if last then Pow2(valid) else 0;
    DivisionIs(v, 256, 0, v);
    if valid + 3 <= 8 {
      assert Lead(buf, valid, last) == [v];
    } else {
      assert Lead(buf, valid, last) == [v, 0];
    }
    HighIs(v, valid, if last then 1 else 0, buf);
  }

  lemma HighIs(v: nat, k: nat, q: nat, r: nat)
    requires r < Pow2(k) && v == q * Pow2(k) + r
    ensures High(v, k) == q
  {
    hide Pow2;
    DivisionIs(v, Pow2(k), q, r);
  }

  lemma HighByte(n: nat)
    requires n <= 65535
    ensures n / 256 % 256 == n / 256
  {
    DivSplits(n, 256, n / 256, n % 256);
    DivisionIs(n / 256, 256, 0, n / 256);
  }

  lemma {:induction false} EncodedFirst(buf: nat, valid: nat, blocks: seq<Block>)
    requires blocks != []
    ensures Encoded(buf, valid, blocks) == BlockBytes(buf, valid, blocks[0]) + Encoded(0, 0, blocks[1..])
  {
    hide BlockBytes;
    if |blocks| > 1 {
      var front, last := blocks[..|blocks| - 1], blocks[|blocks| - 1];
      EncodedFirst(buf, valid, front);
      assert blocks[1..][..|blocks| - 2] == front[1..] && blocks[1..] == front[1..] + [last];
      EncodedNext(0, 0, front[1..], last);
    }
  }

  // Decoding what was encoded gives the blocks back.
  lemma {:induction false} RoundTrip(buf: nat, valid: nat, blocks: seq<Block>)
    requires forall i | 0 <= i < |blocks| :: |blocks[i].data| <= 65535
    requires valid < 8 && buf < Pow2(valid)
    ensures Decode(Encoded(buf, valid, blocks), valid) == Some(blocks)
    decreases |blocks|
  {
    hide BlockBytes, DecodeOne, Pow2;
    if blocks != [] {
      EncodedFirst(buf, valid, blocks);
      SmallPowers();
      RoundTrip(0, 0, blocks[1..]);
      DecodeBlock(buf, valid, blocks[0], Encoded(0, 0, blocks[1..]));
      NotEmpty(buf, valid, blocks[0], Encoded(0, 0, blocks[1..]));
      assert [blocks[0]] + blocks[1..] == blocks;
    }
  }

  lemma NotEmpty(buf: nat, valid: nat, block: Block, rest: seq<uint8>)
    ensures BlockBytes(buf, valid, block) + rest != []
  {
  }
}
