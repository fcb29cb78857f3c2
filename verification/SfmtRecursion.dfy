// The recursion of the SFMT generator on 128-bit words: in plain C on 32-bit
// and 64-bit words, and in SSE2 on 128-bit registers. The constants are those
// of SFMT-params19937.h.
module SfmtRecursion {

  datatype W128 = W128(u0: bv32, u1: bv32, u2: bv32, u3: bv32)

  function WordOf(x: W128, i: nat): bv32
    requires i < 4
  {
    if i == 0 then x.u0 else if i == 1 then x.u1 else if i == 2 then x.u2 else x.u3
  }

  const MSK1: bv32 := 0xdfff_ffef
  const MSK2: bv32 := 0xddfe_cb7f
  const MSK3: bv32 := 0xbffa_ffff
  const MSK4: bv32 := 0xbfff_fff6

  // ----- standard C

  function Pair(high: bv32, low: bv32): bv64 {
    ((high as bv64) << 32) | (low as bv64)
  }

  function LowHalf(x: bv64): bv32 {
    (x & 0xffff_ffff) as bv32
  }

  function HighHalf(x: bv64): bv32 {
    (x >> 32) as bv32
  }

  // One byte down and one byte up; the other half takes in the byte that falls
  // out.
  function Down(x: bv64): bv64 {
    x >> 8
  }

  function Up(x: bv64): bv64 {
    x << 8
  }

  function DownFrom(high: bv64, x: bv64): bv64 {
    (x >> 8) | (high << 56)
  }

  function UpFrom(low: bv64, x: bv64): bv64 {
    (x << 8) | (low >> 56)
  }

  // rshift128 and lshift128 by SFMT_SR2 and SFMT_SL2, which are 1
  function Rshift128(x: W128): W128 {
    var th, tl := Pair(x.u3, x.u2), Pair(x.u1, x.u0);
    var oh, ol := Down(th), DownFrom(th, tl);
    W128(LowHalf(ol), HighHalf(ol), LowHalf(oh), HighHalf(oh))
  }

  function Lshift128(x: W128): W128 {
    var th, tl := Pair(x.u3, x.u2), Pair(x.u1, x.u0);
    var oh, ol := UpFrom(tl, th), Up(tl);
    W128(LowHalf(ol), HighHalf(ol), LowHalf(oh), HighHalf(oh))
  }

  function Right11(x: bv32): bv32 {
    x >> 11
  }

  function Left18(x: bv32): bv32 {
    x << 18
  }

  function And(x: bv32, y: bv32): bv32 {
    x & y
  }

  function Xor(x: bv32, y: bv32): bv32 {
    x ^ y
  }

  // a ^ x ^ ((b >> SFMT_SR1) & mask) ^ y ^ (d << SFMT_SL1)
  function RecursionWord(a: bv32, x: bv32, b: bv32, mask: bv32, y: bv32, d: bv32): bv32 {
    Xor(Xor(Xor(Xor(a, x), And(Right11(b), mask)), y), Left18(d))
  }

  // What do_recursion computes.
  function Recursion(a: W128, b: W128, c: W128, d: W128): W128 {
    var x, y := Lshift128(a), Rshift128(c);
    W128(RecursionWord(a.u0, x.u0, b.u0, MSK1, y.u0, d.u0), RecursionWord(a.u1, x.u1, b.u1, MSK2, y.u1, d.u1),
         RecursionWord(a.u2, x.u2, b.u2, MSK3, y.u2, d.u2), RecursionWord(a.u3, x.u3, b.u3, MSK4, y.u3, d.u3))
  }

  // ----- SSE2 registers

  function Wide(high: bv64, low: bv64): bv128 {
    ((high as bv128) << 64) | (low as bv128)
  }

  function HighWide(v: bv128): bv64 {
    (v >> 64) as bv64
  }

  function LowWide(v: bv128): bv64 {
    (v & 0xffff_ffff_ffff_ffff) as bv64
  }

  // A register as four lanes, the lowest first, and back.
  function Join(x: W128): bv128 {
    Wide(Pair(x.u3, x.u2), Pair(x.u1, x.u0))
  }

  function Split(v: bv128): W128 {
    W128(LowHalf(LowWide(v)), HighHalf(LowWide(v)), LowHalf(HighWide(v)), HighHalf(HighWide(v)))
  }

  // _mm_srli_epi32 and _mm_slli_epi32
  function MmSrliEpi32(v: bv128): bv128 {
    var x := Split(v);
    Join(W128(Right11(x.u0), Right11(x.u1), Right11(x.u2), Right11(x.u3)))
  }

  function MmSlliEpi32(v: bv128): bv128 {
    var x := Split(v);
    Join(W128(Left18(x.u0), Left18(x.u1), Left18(x.u2), Left18(x.u3)))
  }

  // _mm_srli_si128 and _mm_slli_si128, by one byte
  function MmSrliSi128(v: bv128): bv128 {
    v >> 8
  }

  function MmSlliSi128(v: bv128): bv128 {
    v << 8
  }

  function MmXor(v: bv128, w: bv128): bv128 {
    v ^ w
  }

  function MmAnd(v: bv128, w: bv128): bv128 {
    v & w
  }

  // mm_recursion, instruction by instruction
  function MmRecursion(a: bv128, b: bv128, c: bv128, d: bv128): bv128 {
    var y := MmSrliEpi32(b);
    var z := MmSrliSi128(c);
    var v := MmSlliEpi32(d);
    var z1 := MmXor(z, a);
    var z2 := MmXor(z1, v);
    var x := MmSlliSi128(a);
    var y1 := MmAnd(y, Join(W128(MSK1, MSK2, MSK3, MSK4)));
    var z3 := MmXor(z2, x);
    MmXor(z3, y1)
  }

  // ----- the two are the same

  lemma PairHalves(x: bv64)
    ensures Pair(HighHalf(x), LowHalf(x)) == x
  {
  }

  lemma HalvesPair(h: bv32, l: bv32)
    ensures HighHalf(Pair(h, l)) == h && LowHalf(Pair(h, l)) == l
  {
  }

  lemma HalvesWide(h: bv64, l: bv64)
    ensures HighWide(Wide(h, l)) == h && LowWide(Wide(h, l)) == l
  {
  }

  lemma SplitJoin(x: W128)
    ensures Split(Join(x)) == x
  {
    hide Pair, HighHalf, LowHalf, Wide, HighWide, LowWide;
    HalvesWide(Pair(x.u3, x.u2), Pair(x.u1, x.u0));
    HalvesPair(x.u3, x.u2);
    HalvesPair(x.u1, x.u0);
  }

  lemma WideShifts(th: bv64, tl: bv64)
    ensures Wide(Down(th), DownFrom(th, tl)) == MmSrliSi128(Wide(th, tl))
    ensures Wide(UpFrom(tl, th), Up(tl)) == MmSlliSi128(Wide(th, tl))
  {
  }

  // The 64-bit shifts of plain C are the 128-bit shifts of SSE2.
  lemma ShiftsAgree(x: W128)
    ensures Join(Rshift128(x)) == MmSrliSi128(Join(x))
    ensures Join(Lshift128(x)) == MmSlliSi128(Join(x))
  {
    hide Wide, Pair, LowHalf, HighHalf, Down, Up, DownFrom, UpFrom, MmSrliSi128, MmSlliSi128;
    var th, tl := Pair(x.u3, x.u2), Pair(x.u1, x.u0);
    WideShifts(th, tl);
    PairHalves(Down(th));
    PairHalves(DownFrom(th, tl));
    PairHalves(Up(tl));
    PairHalves(UpFrom(tl, th));
  }

  lemma WideXor(h: bv64, l: bv64, h2: bv64, l2: bv64)
    ensures MmXor(Wide(h, l), Wide(h2, l2)) == Wide(h ^ h2, l ^ l2)
  {
  }

  lemma WideAnd(h: bv64, l: bv64, h2: bv64, l2: bv64)
    ensures MmAnd(Wide(h, l), Wide(h2, l2)) == Wide(h & h2, l & l2)
  {
  }

  function Xor64(x: bv64, y: bv64): bv64 {
    x ^ y
  }

  function And64(x: bv64, y: bv64): bv64 {
    x & y
  }

  lemma PairXor(h: bv32, l: bv32, h2: bv32, l2: bv32)
    ensures Xor64(Pair(h, l), Pair(h2, l2)) == Pair(Xor(h, h2), Xor(l, l2))
    ensures And64(Pair(h, l), Pair(h2, l2)) == Pair(And(h, h2), And(l, l2))
  {
  }

  lemma WideXor64(h: bv64, l: bv64, h2: bv64, l2: bv64)
    ensures MmXor(Wide(h, l), Wide(h2, l2)) == Wide(Xor64(h, h2), Xor64(l, l2))
    ensures MmAnd(Wide(h, l), Wide(h2, l2)) == Wide(And64(h, h2), And64(l, l2))
  {
    hide MmXor, MmAnd, Wide;
    WideXor(h, l, h2, l2);
    WideAnd(h, l, h2, l2);
  }

  function XorLanes(x: W128, y: W128): W128 {
    W128(Xor(x.u0, y.u0), Xor(x.u1, y.u1), Xor(x.u2, y.u2), Xor(x.u3, y.u3))
  }

  lemma JoinXor(x: W128, y: W128)
    ensures MmXor(Join(x), Join(y)) == Join(XorLanes(x, y))
    ensures MmAnd(Join(x), Join(y)) == Join(W128(And(x.u0, y.u0), And(x.u1, y.u1), And(x.u2, y.u2), And(x.u3, y.u3)))
  {
    hide Pair, Wide, Xor, And, Xor64, And64, MmXor, MmAnd;
    PairXor(x.u3, x.u2, y.u3, y.u2);
    PairXor(x.u1, x.u0, y.u1, y.u0);
    WideXor64(Pair(x.u3, x.u2), Pair(x.u1, x.u0), Pair(y.u3, y.u2), Pair(y.u1, y.u0));
  }

  lemma XorLaws(x: bv32, y: bv32, z: bv32)
    ensures Xor(Xor(x, y), z) == Xor(x, Xor(y, z)) && Xor(x, y) == Xor(y, x) && Xor(y, z) == Xor(z, y)
  {
  }

  lemma XorSwap(x: bv32, y: bv32, z: bv32)
    ensures Xor(Xor(x, y), z) == Xor(Xor(x, z), y)
  {
    hide Xor;
    XorLaws(x, y, z);
    XorLaws(x, z, y);
    XorLaws(y, z, x);
  }

  lemma WordOrder(a: bv32, x: bv32, m: bv32, y: bv32, d: bv32)
    ensures Xor(Xor(Xor(Xor(y, a), d), x), m) == Xor(Xor(Xor(Xor(a, x), m), y), d)
  {
    hide Xor;
    XorLaws(y, a, d);
    XorSwap(Xor(a, y), d, x);
    XorSwap(a, y, x);
    XorSwap(Xor(Xor(a, x), y), d, m);
    XorSwap(Xor(a, x), y, m);
  }

  // Instruction by instruction, SSE2 computes what plain C computes.
  lemma RecursionsAgree(a: W128, b: W128, c: W128, d: W128)
    ensures MmRecursion(Join(a), Join(b), Join(c), Join(d)) == Join(Recursion(a, b, c, d))
  {
    hide Join, Split, Lshift128, Rshift128, Xor, And, Right11, Left18, MmXor, MmAnd, MmSrliSi128, MmSlliSi128;
    SplitJoin(b);
    SplitJoin(d);
    ShiftsAgree(a);
    ShiftsAgree(c);
    var x, y := Lshift128(a), Rshift128(c);
    var right := W128(Right11(b.u0), Right11(b.u1), Right11(b.u2), Right11(b.u3));
    var left := W128(Left18(d.u0), Left18(d.u1), Left18(d.u2), Left18(d.u3));
    var masked := W128(And(right.u0, MSK1), And(right.u1, MSK2), And(right.u2, MSK3), And(right.u3, MSK4));
    JoinXor(right, W128(MSK1, MSK2, MSK3, MSK4));
    JoinXor(y, a);
    JoinXor(XorLanes(y, a), left);
    JoinXor(XorLanes(XorLanes(y, a), left), x);
    JoinXor(XorLanes(XorLanes(XorLanes(y, a), left), x), masked);
    WordOrder(a.u0, x.u0, masked.u0, y.u0, left.u0);
    WordOrder(a.u1, x.u1, masked.u1, y.u1, left.u1);
    WordOrder(a.u2, x.u2, masked.u2, y.u2, left.u2);
    WordOrder(a.u3, x.u3, masked.u3, y.u3, left.u3);
  }
}
