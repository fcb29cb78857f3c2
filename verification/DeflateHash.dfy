// The rolling three-byte hash of deflate's string dictionary (UPDATE_HASH).
module DeflateHash {
  import opened Basics
  import opened Lz77

  // hash_bits is memLevel + 7 for memLevel 1..9, hash_mask is 2^hash_bits - 1
  // and hash_shift is (hash_bits + MIN_MATCH - 1) / MIN_MATCH.
  predicate HashParameters(shift: bv6, mask: bv32) {
    || (shift == 3 && (mask == 0xff || mask == 0x1ff))
    || (shift == 4 && (mask == 0x3ff || mask == 0x7ff || mask == 0xfff))
    || (shift == 5 && (mask == 0x1fff || mask == 0x3fff || mask == 0x7fff))
    || (shift == 6 && mask == 0xffff)
  }

  // 2^(memLevel + 7) - 1
  function MaskOf(memLevel: nat): bv32
    requires 1 <= memLevel <= 9
  {
    [0xff, 0x1ff, 0x3ff, 0x7ff, 0xfff, 0x1fff, 0x3fff, 0x7fff, 0xffff][memLevel - 1]
  }

  // hash_shift is the least with which three updates forget a byte.
  lemma MemLevels(memLevel: nat, shift: bv6)
    requires 1 <= memLevel <= 9
    ensures HashParameters(shift, MaskOf(memLevel)) <==> shift as int == (memLevel + 7 + 2) / 3
  {
    ShiftValues(shift);
  }

  lemma ShiftValues(shift: bv6)
    ensures shift as int == 3 <==> shift == 3
    ensures shift as int == 4 <==> shift == 4
    ensures shift as int == 5 <==> shift == 5
    ensures shift as int == 6 <==> shift == 6
  {
  }

  function Shift(h: bv32, shift: bv6): bv32
    requires shift <= 6
  {
    h << shift
  }

  // Xor a byte into a shifted register and cut it to hash_bits.
  function Mix(h: bv32, c: byte, mask: bv32): bv32 {
    (h ^ (c as bv32)) & mask
  }

  function UpdateHash(h: bv32, c: byte, shift: bv6, mask: bv32): bv32
    requires HashParameters(shift, mask)
  {
    Mix(Shift(h, shift), c, mask)
  }

  // Two bytes, shifted to make room for a third.
  function ShiftedIn(a: byte, b: byte, shift: bv6): bv32
    requires shift <= 6
  {
    Shift(Shift(a as bv32, shift) ^ (b as bv32), shift)
  }

  // The hash of three bytes, taken from the bytes alone.
  function Hash3(a: byte, b: byte, c: byte, shift: bv6, mask: bv32): bv32
    requires HashParameters(shift, mask)
  {
    Mix(ShiftedIn(a, b, shift), c, mask)
  }

  // The register's value as an index into head[].
  function Index(h: bv32): nat {
    ((h >> 8) & 0xff) as bv8 as int * 256 + (h & 0xff) as bv8 as int
  }

  // The hash chain that three bytes belong to.
  function Chain(a: byte, b: byte, c: byte, shift: bv6, mask: bv32): nat
    requires HashParameters(shift, mask)
  {
    Index(Hash3(a, b, c, shift, mask))
  }

  // The register has rolled over bytes a and b: what it held before them no
  // longer matters for the next hash.
  predicate Rolled(h: bv32, a: byte, b: byte, shift: bv6, mask: bv32)
    requires HashParameters(shift, mask)
  {
    Shift(h, shift) & mask == ShiftedIn(a, b, shift) & mask
  }

  lemma StartRolled(a: byte, b: byte, shift: bv6, mask: bv32)
    requires HashParameters(shift, mask)
    ensures Rolled(UpdateHash(a as bv32, b, shift, mask), a, b, shift, mask)
  {
  }

  lemma XorUnderMask(x: bv32, y: bv32, c: bv32, mask: bv32)
    requires x & mask == y & mask
    ensures (x ^ c) & mask == (y ^ c) & mask
  {
  }

  lemma MixUnderMask(x: bv32, y: bv32, c: byte, mask: bv32)
    requires x & mask == y & mask
    ensures Mix(x, c, mask) == Mix(y, c, mask)
  {
    XorUnderMask(x, y, c as bv32, mask);
  }

  lemma RolledNext(h: bv32, a: byte, b: byte, c: byte, shift: bv6, mask: bv32)
    requires HashParameters(shift, mask) && Rolled(h, a, b, shift, mask)
    ensures UpdateHash(h, c, shift, mask) == Hash3(a, b, c, shift, mask)
  {
    hide Mix, Shift, ShiftedIn;
    MixUnderMask(Shift(h, shift), ShiftedIn(a, b, shift), c, mask);
  }

  lemma RolledOver(a: byte, b: byte, c: byte, shift: bv6, mask: bv32)
    requires HashParameters(shift, mask)
    ensures Rolled(Hash3(a, b, c, shift, mask), b, c, shift, mask)
  {
  }

  // What one INSERT_STRING does to the register: it selects the chain of the
  // three bytes, and is ready for the next byte.
  lemma UpdateRolled(h: bv32, a: byte, b: byte, c: byte, shift: bv6, mask: bv32)
    requires HashParameters(shift, mask) && Rolled(h, a, b, shift, mask)
    ensures Index(UpdateHash(h, c, shift, mask)) == Chain(a, b, c, shift, mask)
    ensures Rolled(UpdateHash(h, c, shift, mask), b, c, shift, mask)
  {
    hide Index, UpdateHash, Hash3, Rolled;
    RolledNext(h, a, b, c, shift, mask);
    RolledOver(a, b, c, shift, mask);
  }

  // Three updates forget the register: hash_shift * MIN_MATCH >= hash_bits.
  lemma ThreeUpdatesForget(h: bv32, a: byte, b: byte, c: byte, shift: bv6, mask: bv32)
    requires HashParameters(shift, mask)
    ensures UpdateHash(UpdateHash(UpdateHash(h, a, shift, mask), b, shift, mask), c, shift, mask)
         == Hash3(a, b, c, shift, mask)
  {
  }

  lemma HashThirdByte(a: byte, b: byte, c: byte, d: byte, shift: bv6, mask: bv32)
    requires HashParameters(shift, mask)
    requires Hash3(a, b, c, shift, mask) == Hash3(a, b, d, shift, mask)
    ensures c == d
  {
  }

  lemma HashFits(a: byte, b: byte, c: byte, shift: bv6, mask: bv32)
    requires HashParameters(shift, mask)
    ensures Hash3(a, b, c, shift, mask) <= mask <= 0xffff
  {
  }

  // Why longest_match never compares the third byte: it enters the hash
  // unshifted, and hash_bits >= 8.
  lemma ThirdByteEqual(a: byte, b: byte, c: byte, d: byte, shift: bv6, mask: bv32)
    requires HashParameters(shift, mask)
    requires Chain(a, b, c, shift, mask) == Chain(a, b, d, shift, mask)
    ensures c == d
  {
    hide Index, Hash3;
    HashFits(a, b, c, shift, mask);
    HashFits(a, b, d, shift, mask);
    IndexInjective(Hash3(a, b, c, shift, mask), Hash3(a, b, d, shift, mask));
    HashThirdByte(a, b, c, d, shift, mask);
  }

  // ----- the register as an index

  lemma ByteLeq(x: bv8, y: bv8)
    requires x <= y
    ensures x as int <= y as int
  {
  }

  lemma TwoBytesLeq(a: bv8, b: bv8, c: bv8, d: bv8)
    requires a <= c && b <= d
    ensures a as int * 256 + b as int <= c as int * 256 + d as int
  {
    ByteLeq(a, c);
    ByteLeq(b, d);
  }

  lemma ByteInjective(x: bv8, y: bv8)
    requires x as int == y as int
    ensures x == y
  {
  }

  lemma TwoBytesInjective(a: bv8, b: bv8, c: bv8, d: bv8)
    requires a as int * 256 + b as int == c as int * 256 + d as int
    ensures a == c && b == d
  {
    assert a as int == c as int && b as int == d as int;
    ByteInjective(a, c);
    ByteInjective(b, d);
  }

  lemma FromHalves(h: bv32, g: bv32)
    requires h <= 0xffff && g <= 0xffff
    requires ((h >> 8) & 0xff) as bv8 == ((g >> 8) & 0xff) as bv8
    requires (h & 0xff) as bv8 == (g & 0xff) as bv8
    ensures h == g
  {
  }

  lemma HalvesInjective(h: bv32, g: bv32)
    requires h <= 0xffff && g <= 0xffff
    requires ((h >> 8) & 0xff) as bv8 as int * 256 + (h & 0xff) as bv8 as int
          == ((g >> 8) & 0xff) as bv8 as int * 256 + (g & 0xff) as bv8 as int
    ensures h == g
  {
    TwoBytesInjective(((h >> 8) & 0xff) as bv8, (h & 0xff) as bv8, ((g >> 8) & 0xff) as bv8, (g & 0xff) as bv8);
    FromHalves(h, g);
  }

  lemma IndexInjective(h: bv32, g: bv32)
    requires h <= 0xffff && g <= 0xffff && Index(h) == Index(g)
    ensures h == g
  {
    HalvesInjective(h, g);
  }

  // hash_size, one more than the largest index.
  function HashSize(mask: bv32): nat {
    Index(mask) + 1
  }

  // It is a power of two for every memLevel, and the index is the register.
  lemma HashSizes()
    ensures HashSize(0xff) == 256 && HashSize(0x7ff) == 2048 && HashSize(0x7fff) == 32768 && HashSize(0xffff) == 65536
    ensures Index(0) == 0 && Index(0x1234) == 0x1234
  {
  }

  lemma HalvesLeq(h: bv32, mask: bv32)
    requires h <= mask <= 0xffff
    requires (mask & 0xff) as bv8 == 0xff
    ensures ((h >> 8) & 0xff) as bv8 <= ((mask >> 8) & 0xff) as bv8
    ensures (h & 0xff) as bv8 <= (mask & 0xff) as bv8
  {
  }

  lemma HalvesBound(h: bv32, mask: bv32)
    requires h <= mask <= 0xffff
    requires (mask & 0xff) as bv8 == 0xff
    ensures ((h >> 8) & 0xff) as bv8 as int * 256 + (h & 0xff) as bv8 as int
         <= ((mask >> 8) & 0xff) as bv8 as int * 256 + (mask & 0xff) as bv8 as int
  {
    HalvesLeq(h, mask);
    TwoBytesLeq(((h >> 8) & 0xff) as bv8, (h & 0xff) as bv8, ((mask >> 8) & 0xff) as bv8, (mask & 0xff) as bv8);
  }

  lemma IndexBound(h: bv32, mask: bv32)
    requires h <= mask <= 0xffff
    requires (mask & 0xff) as bv8 == 0xff
    ensures Index(h) <= Index(mask)
  {
    HalvesBound(h, mask);
  }

  lemma MaskLow(shift: bv6, mask: bv32)
    requires HashParameters(shift, mask)
    ensures (mask & 0xff) as bv8 == 0xff
  {
  }

  lemma ChainBound(a: byte, b: byte, c: byte, shift: bv6, mask: bv32)
    requires HashParameters(shift, mask)
    ensures Chain(a, b, c, shift, mask) < HashSize(mask)
  {
    hide Hash3, Index;
    HashFits(a, b, c, shift, mask);
    MaskLow(shift, mask);
    IndexBound(Hash3(a, b, c, shift, mask), mask);
  }
}
