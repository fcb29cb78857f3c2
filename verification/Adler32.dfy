// Adler-32 (section 8.2 of RFC 1950): sums that are reduced once in 5552 bytes,
// remainders without division, and the checksum of a concatenation.
module Adler32 {
  import opened Basics
  import opened Lz77
  import opened Powers
  import opened BitStream

  // BASE is 65521, the largest prime below 2^16.
  // ----- byte by byte

  // The sum of the bytes, begun with a, and the sum of the sums, begun with b.
  function SumA(a: nat, data: seq<uint8>): (r: nat)
    ensures r < 65521
  {
    if data == [] then a % 65521 else (SumA(a, data[..|data| - 1]) + ByteValue(data[|data| - 1])) % 65521
  }

  function SumB(a: nat, b: nat, data: seq<uint8>): (r: nat)
    ensures r < 65521
  {
    if data == [] then b % 65521 else (SumB(a, b, data[..|data| - 1]) + SumA(a, data)) % 65521
  }

  // The checksum of data, continued from `adler`.
  function Adler(adler: nat, data: seq<uint8>): nat {
    SumA(adler % 0x1_0000, data) + 0x1_0000 * SumB(adler % 0x1_0000, adler / 0x1_0000, data)
  }

  const LETTERS: seq<uint8> := [87, 105, 107, 105, 112, 101, 100, 105, 97]

  lemma NextLetter(n: nat, a0: nat, b0: nat, a: nat, b: nat)
    requires n < 9 && SumA(1, LETTERS[..n]) == a0 && SumB(1, 0, LETTERS[..n]) == b0
    requires a == a0 + LETTERS[n] < 65521 && b == b0 + a < 65521
    ensures SumA(1, LETTERS[..n + 1]) == a && SumB(1, 0, LETTERS[..n + 1]) == b
  {
    assert LETTERS[..n + 1][..n] == LETTERS[..n];
  }

  lemma NoLetters()
    ensures SumA(1, LETTERS[..0]) == 1 && SumB(1, 0, LETTERS[..0]) == 0 && LETTERS[..9] == LETTERS
  {
    assert LETTERS[..0] == [];
  }

  // The checksum of "Wikipedia".
  lemma NineLetters()
    ensures Adler(1, LETTERS) == 0x11e6_0398
  {
    hide SumA, SumB;
    NoLetters();
    NextLetter(0, 1, 0, 88, 88);
    NextLetter(1, 88, 88, 193, 281);
    NextLetter(2, 193, 281, 300, 581);
    NextLetter(3, 300, 581, 405, 986);
    NextLetter(4, 405, 986, 517, 1503);
    NextLetter(5, 517, 1503, 618, 2121);
    NextLetter(6, 618, 2121, 718, 2839);
    NextLetter(7, 718, 2839, 823, 3662);
    NextLetter(8, 823, 3662, 920, 4582);
  }

  // Both halves are remainders, as in every checksum computed so far.
  predicate Reduced(adler: nat) {
    adler % 0x1_0000 < 65521 && adler / 0x1_0000 < 65521
  }

  // ----- MOD, MOD28 and MOD63 without division: 2^16 is 15 modulo 65521

  function Chop(a: nat): nat {
    a % 0x1_0000 + (a / 0x1_0000 * 16 - a / 0x1_0000)
  }

  function Mod28(a: nat): nat {
    if Chop(a) >= 65521 then Chop(a) - 65521 else Chop(a)
  }

  function Mod(a: nat): nat {
    Mod28(Chop(a))
  }

  // a >> 32 is folded in 225 times, then a >> 16 15 times, twice.
  function Mod63(a: nat): nat {
    var t := a / 0x1_0000_0000;
    var folded := a % 0x1_0000_0000 + (t * 256 - t * 32 + t);
    Mod28(Chop(folded))
  }

  lemma RemainderIs(a: nat, r: nat, k: int)
    requires a == r + 65521 * k && r < 65521
    ensures a % 65521 == r
  {
    DivisionIs(a, 65521, k, r);
  }

  lemma ChopKeeps(a: nat)
    ensures Chop(a) % 65521 == a % 65521 && Chop(a) <= 0xffff + 15 * (a / 0x1_0000)
  {
    var q, r := Chop(a) / 65521, Chop(a) % 65521;
    DivSplits(a, 0x1_0000, a / 0x1_0000, a % 0x1_0000);
    DivSplits(Chop(a), 65521, q, r);
    RemainderIs(a, r, q + a / 0x1_0000);
  }

  lemma Mod28IsMod(a: nat)
    requires a < 0x1000_0000
    ensures Mod28(a) == a % 65521
  {
    hide Chop;
    ChopKeeps(a);
    Below(a, 0x1_0000, 0x1000);
    if Chop(a) >= 65521 {
      RemainderIs(Chop(a), Chop(a) - 65521, 1);
    } else {
      RemainderIs(Chop(a), Chop(a), 0);
    }
  }

  lemma Below(a: nat, m: nat, n: nat)
    requires 0 < m && a < m * n
    ensures a / m < n
  {
    DivSplits(a, m, a / m, a % m);
    MulMonotone(m, n, a / m);
  }

  lemma ModIsMod(a: nat)
    requires a < 0x1_0000_0000
    ensures Mod(a) == a % 65521
  {
    hide Chop, Mod28;
    ChopKeeps(a);
    Below(a, 0x1_0000, 0x1_0000);
    Mod28IsMod(Chop(a));
  }

  lemma Mod63IsMod(a: nat)
    requires a < 0x8000_0000_0000_0000
    ensures Mod63(a) == a % 65521
  {
    hide Chop, Mod28;
    var t := a / 0x1_0000_0000;
    var folded := a % 0x1_0000_0000 + (t * 256 - t * 32 + t);
    DivSplits(a, 0x1_0000_0000, t, a % 0x1_0000_0000);
    Below(a, 0x1_0000_0000, 0x8000_0000);
    DivSplits(folded, 65521, folded / 65521, folded % 65521);
    RemainderIs(a, folded % 65521, folded / 65521 + 65551 * t);
    ChopKeeps(folded);
    Below(folded, 0x1_0000, 0x80_0000);
    Mod28IsMod(Chop(folded));
  }

  // ----- deferring the remainders

  // The most that the sums can be k bytes after they were reduced, or were the
  // halves of any 32-bit number.
  function MostA(k: nat): nat {
    65535 + 255 * k
  }

  function MostB(k: nat): nat {
    if k == 0 then 65535 else MostB(k - 1) + MostA(k)
  }

  lemma {:induction false} MostGrows(k: nat, n: nat)
    requires k <= n
    ensures MostA(k) <= MostA(n) && MostB(k) <= MostB(n)
  {
    if k < n {
      MostGrows(k, n - 1);
    }
  }

  // 255 n (n + 1) / 2 + (n + 1) m, with m as the first term.
  lemma {:induction false} MostIs(k: nat)
    ensures 2 * MostB(k) == 2 * 65535 * (k + 1) + 255 * (k * (k + 1))
  {
    if k > 0 {
      MostIs(k - 1);
      assert (k - 1) * k + 2 * k == k * (k + 1);
    }
  }

  // No sum leaves 32 bits before it is reduced.
  lemma BlockFits(k: nat)
    requires k <= 5552
    ensures MostA(k) < 0x1_0000_0000 && MostB(k) < 0x1_0000_0000
  {
    hide MostB;
    MostGrows(k, 5552);
    MostIs(5552);
  }

  // The sums without any remainder.
  function RawA(a: nat, data: seq<uint8>): nat {
    if data == [] then a else RawA(a, data[..|data| - 1]) + ByteValue(data[|data| - 1])
  }

  function RawB(a: nat, b: nat, data: seq<uint8>): nat {
    if data == [] then b else RawB(a, b, data[..|data| - 1]) + RawA(a, data)
  }

  lemma {:induction false} RawOfOnes(n: nat)
    ensures RawA(65520, seq(n, i => 255)) == 65520 + 255 * n
    ensures 2 * RawB(65520, 65520, seq(n, i => 255)) == 2 * 65520 * (n + 1) + 255 * (n * (n + 1))
  {
    if n > 0 {
      RawOfOnes(n - 1);
      assert seq(n, i => 255 as uint8)[..n - 1] == seq(n - 1, i => 255);
      assert (n - 1) * n + 2 * n == n * (n + 1);
    }
  }

  // NMAX is the largest block: after one byte more the sum may need 33 bits.
  lemma BlockIsLargest(n: nat)
    ensures n <= 5552 ==> RawB(65520, 65520, seq(n, i => 255)) < 0x1_0000_0000
    ensures n > 5552 ==> RawB(65520, 65520, seq(n, i => 255)) >= 0x1_0000_0000
  {
    hide RawB;
    RawOfOnes(n);
    if n <= 5552 {
      MulMonotone(n, n + 1, 5553);
      MulMonotone(5553, n, 5552);
    } else {
      MulMonotone(n, 5554, n + 1);
      MulMonotone(5554, 5553, n);
    }
  }

  // The sums are right modulo 65521, k bytes after they were reduced.
  ghost predicate Deferred(adler: nat, sum2: nat, a: nat, b: nat, data: seq<uint8>, i: nat, k: nat) {
    && i <= |data|
    && adler % 65521 == SumA(a, data[..i]) && sum2 % 65521 == SumB(a, b, data[..i])
    && adler <= MostA(k) && sum2 <= MostB(k)
  }

  lemma ModAdds(x: nat, y: nat, c: nat)
    requires x % 65521 == y % 65521
    ensures (x + c) % 65521 == (y + c) % 65521
  {
    DivSplits(x, 65521, x / 65521, x % 65521);
    DivSplits(y, 65521, y / 65521, y % 65521);
    DivSplits(y + c, 65521, (y + c) / 65521, (y + c) % 65521);
    RemainderIs(x + c, (y + c) % 65521, (y + c) / 65521 - y / 65521 + x / 65521);
  }

  lemma ModReduced(x: nat)
    ensures x % 65521 % 65521 == x % 65521
  {
  }

  // adler += *buf++; sum2 += adler
  lemma DeferredNext(adler: nat, sum2: nat, a: nat, b: nat, data: seq<uint8>, i: nat, k: nat)
    requires Deferred(adler, sum2, a, b, data, i, k) && i < |data|
    ensures var next := adler + ByteValue(data[i]);
      Deferred(next, sum2 + next, a, b, data, i + 1, k + 1)
  {
    hide SumA, SumB;
    var next := adler + ByteValue(data[i]);
    SumsNext(a, b, data, i);
    ModReduced(adler);
    ModAdds(adler, adler % 65521, ByteValue(data[i]));
    ModReduced(next);
    ModReduced(sum2);
    ModAdds(sum2, sum2 % 65521, next);
    ModAdds(next, next % 65521, sum2 % 65521);
  }

  lemma SumsNext(a: nat, b: nat, data: seq<uint8>, i: nat)
    requires i < |data|
    ensures SumA(a, data[..i + 1]) == (SumA(a, data[..i]) + ByteValue(data[i])) % 65521
    ensures SumB(a, b, data[..i + 1]) == (SumB(a, b, data[..i]) + SumA(a, data[..i + 1])) % 65521
  {
    assert data[..i + 1][..i] == data[..i];
  }

  // Sixteen bytes or however many, without a remainder.
  method Sum(adler0: uint32, sum20: uint32, data: seq<uint8>, i0: nat, n: nat, ghost a: nat, ghost b: nat,
    ghost k: nat)
    returns (adler: uint32, sum2: uint32)
    requires Deferred(adler0, sum20, a, b, data, i0, k) && i0 + n <= |data| && k + n <= 5552
    ensures Deferred(adler, sum2, a, b, data, i0 + n, k + n)
  {
    hide Deferred, MostA, MostB, SumA, SumB, ByteValue;
    adler, sum2 := adler0, sum20;
    var i := i0;
    while i < i0 + n
      invariant i0 <= i <= i0 + n && Deferred(adler, sum2, a, b, data, i, k + (i - i0))
    {
      DeferredNext(adler, sum2, a, b, data, i, k + (i - i0));
      BlockFits(k + (i - i0) + 1);
      DeferredMost(adler + ByteValue(data[i]), sum2 + (adler + ByteValue(data[i])), a, b, data, i + 1, k + (i - i0)
        + 1);
      adler := adler + ByteValue(data[i]);
      sum2 := sum2 + adler;
      i := i + 1;
    }
  }

  lemma DeferredMost(adler: nat, sum2: nat, a: nat, b: nat, data: seq<uint8>, i: nat, k: nat)
    requires Deferred(adler, sum2, a, b, data, i, k)
    ensures adler <= MostA(k) && sum2 <= MostB(k)
    ensures adler % 65521 == SumA(a, data[..i]) && sum2 % 65521 == SumB(a, b, data[..i])
  {
  }

  lemma Reduction(adler: nat, sum2: nat, a: nat, b: nat, data: seq<uint8>, i: nat, k: nat)
    requires Deferred(adler, sum2, a, b, data, i, k)
    ensures Deferred(adler % 65521, sum2 % 65521, a, b, data, i, 0)
  {
    hide SumA, SumB;
    ModReduced(adler);
    ModReduced(sum2);
  }

  lemma DeferredStarts(adler: nat, sum2: nat, data: seq<uint8>)
    requires adler < 65536 && sum2 < 65536
    ensures Deferred(adler, sum2, adler, sum2, data, 0, 0)
  {
  }

  // Blocks of 5552 bytes, 347 times sixteen of them, and a remainder each.
  method Blocks(adler0: uint32, sum20: uint32, data: seq<uint8>) returns (adler: uint32, sum2: uint32, i: nat)
    requires adler0 < 65536 && sum20 < 65536
    ensures Deferred(adler, sum2, adler0, sum20, data, i, 0) && i <= |data| < i + 5552
      && (i == 0 || (adler < 65521 && sum2 < 65521))
  {
    hide Deferred, SumA, SumB, MostA, MostB, Mod;
    adler, sum2, i := adler0, sum20, 0;
    DeferredStarts(adler, sum2, data);
    while |data| - i >= 5552
      invariant i <= |data| && Deferred(adler, sum2, adler0, sum20, data, i, 0)
      invariant i == 0 || (adler < 65521 && sum2 < 65521)
    {
      var n := 5552 / 16;
      ghost var i0 := i;
      while n != 0
        invariant 0 <= n <= 347 && i == i0 + 16 * (347 - n)
        invariant Deferred(adler, sum2, adler0, sum20, data, i, i - i0)
      {
        adler, sum2 := Sum(adler, sum2, data, i, 16, adler0, sum20, i - i0);
        i := i + 16;
        n := n - 1;
      }
      Reduction(adler, sum2, adler0, sum20, data, i, 5552);
      ModIsMod(adler);
      ModIsMod(sum2);
      adler := Mod(adler);
      sum2 := Mod(sum2);
    }
  }

  function Combined(adler: nat, sum2: nat): nat {
    adler + 0x1_0000 * sum2
  }

  // A checksum of one byte, without any remainder.
  method OneByte(adler0: uint32, sum20: uint32, c: uint8) returns (r: nat)
    requires adler0 < 65536 && sum20 < 65536
    ensures r == Adler(Combined(adler0, sum20), [c]) <==> sum20 + SumA(adler0, [c]) < 131042
    ensures r < 0x1_0000_0000 && r % 0x1_0000 % 65521 == SumA(adler0, [c])
    ensures r / 0x1_0000 % 65521 == SumB(adler0, sum20, [c])
  {
    hide SumA, SumB, Adler, Combined;
    var adler: uint32 := adler0 + ByteValue(c);
    if adler >= 65521 {
      adler := adler - 65521;
    }
    FirstOfOne(adler0, c, adler);
    var sum2: uint32 := sum20 + adler;
    if sum2 >= 65521 {
      sum2 := sum2 - 65521;
    }
    SecondOfOne(adler0, sum20, c, sum2);
    Halves(adler, sum2);
    ReducedHalves(SumA(adler0, [c]), SumB(adler0, sum20, [c]), adler0, sum20, [c]);
    CombinedOnce(adler, sum2, SumA(adler0, [c]), SumB(adler0, sum20, [c]));
    r := Combined(adler, sum2);
  }

  lemma FirstOfOne(a: nat, c: uint8, adler: nat)
    requires a < 65536 && adler == if a + ByteValue(c) >= 65521 then a + ByteValue(c) - 65521 else a + ByteValue(c)
    ensures adler == SumA(a, [c]) < 65521 && adler % 65521 == adler
  {
    hide SumA, SumB, ByteValue;
    OneByteSums(a, 0, c);
    Nearest(a + ByteValue(c), adler);
    RemainderIs(adler, adler, 0);
  }

  lemma SecondOfOne(a: nat, b: nat, c: uint8, sum2: nat)
    requires a < 65536 && b < 65536
    requires var raw := b + SumA(a, [c]); sum2 == if raw >= 65521 then raw - 65521 else raw
    ensures sum2 % 65521 == SumB(a, b, [c])
    ensures sum2 == SumB(a, b, [c]) <==> b + SumA(a, [c]) < 131042
  {
    hide SumA, SumB;
    OneByteSums(a, b, c);
    ModReduced(b);
    ModAdds(b % 65521, b, SumA(a, [c]));
    SubtractedIs(b + SumA(a, [c]), sum2, if b + SumA(a, [c]) >= 65521 then 1 else 0);
    Nearest(b + SumA(a, [c]), sum2);
  }

  lemma Nearest(x: nat, y: nat)
    requires y == x || (y == x - 65521 && 0 <= y)
    ensures x % 65521 == y % 65521 && (y < 65521 ==> y == x % 65521)
  {
    DivSplits(y, 65521, y / 65521, y % 65521);
    RemainderIs(x, y % 65521, if y == x then y / 65521 else y / 65521 + 1);
    if y < 65521 {
      RemainderIs(y, y, 0);
    }
  }

  lemma Halves(adler: nat, sum2: nat)
    requires adler < 65536
    ensures Combined(adler, sum2) % 0x1_0000 == adler && Combined(adler, sum2) / 0x1_0000 == sum2
  {
    DivisionIs(Combined(adler, sum2), 0x1_0000, sum2, adler);
  }

  lemma OneByteSums(a: nat, b: nat, c: uint8)
    ensures SumA(a, [c]) == (a % 65521 + ByteValue(c)) % 65521 == (a + ByteValue(c)) % 65521
    ensures SumB(a, b, [c]) == (b % 65521 + SumA(a, [c])) % 65521
  {
    hide ByteValue;
    assert [c][..0] == [];
    ModReduced(a);
    ModAdds(a % 65521, a, ByteValue(c));
  }

  lemma ReducedHalves(adler: nat, sum2: nat, a: nat, b: nat, data: seq<uint8>)
    requires a < 65536 && b < 65536
    requires adler == SumA(a, data) && sum2 == SumB(a, b, data)
    ensures Combined(adler, sum2) == Adler(Combined(a, b), data)
  {
    Halves(a, b);
  }

  // Fewer than sixteen bytes: one subtraction is enough for the first sum.
  method Short(adler0: uint32, sum20: uint32, data: seq<uint8>) returns (r: nat)
    requires adler0 < 65536 && sum20 < 65536 && |data| < 16
    ensures r == Adler(Combined(adler0, sum20), data)
  {
    hide Deferred, SumA, SumB, Adler, Mod28, MostA, MostB;
    DeferredStarts(adler0, sum20, data);
    var adler: uint32, sum2: uint32 := Sum(adler0, sum20, data, 0, |data|, adler0, sum20, 0);
    DeferredMost(adler, sum2, adler0, sum20, data, |data|, |data|);
    ShortMost(|data|);
    assert data[..|data|] == data;
    Nearest(adler, if adler >= 65521 then adler - 65521 else adler);
    if adler >= 65521 {
      adler := adler - 65521;
    }
    Mod28IsMod(sum2);
    sum2 := Mod28(sum2);
    ReducedHalves(adler, sum2, adler0, sum20, data);
    r := Combined(adler, sum2);
  }

  lemma ShortMost(k: nat)
    requires k < 16
    ensures MostA(k) < 131042 && MostB(k) < 0x1000_0000
  {
    hide MostB;
    MostGrows(k, 15);
    MostIs(15);
  }

  // Sixteen bytes or more.
  method Long(adler0: uint32, sum20: uint32, data: seq<uint8>) returns (r: nat)
    requires adler0 < 65536 && sum20 < 65536 && 16 <= |data|
    ensures r == Adler(Combined(adler0, sum20), data)
  {
    hide Deferred, SumA, SumB, Adler, Mod, MostA, MostB;
    var adler: uint32, sum2: uint32, i := Blocks(adler0, sum20, data);
    if i < |data| {
      ghost var i0 := i;
      while |data| - i >= 16
        invariant i0 <= i <= |data| && Deferred(adler, sum2, adler0, sum20, data, i, i - i0)
      {
        adler, sum2 := Sum(adler, sum2, data, i, 16, adler0, sum20, i - i0);
        i := i + 16;
      }
      adler, sum2 := Sum(adler, sum2, data, i, |data| - i, adler0, sum20, i - i0);
      Reduction(adler, sum2, adler0, sum20, data, |data|, |data| - i0);
      ModIsMod(adler);
      ModIsMod(sum2);
      adler := Mod(adler);
      sum2 := Mod(sum2);
      DeferredMost(adler, sum2, adler0, sum20, data, |data|, 0);
    } else {
      DeferredMost(adler, sum2, adler0, sum20, data, |data|, 0);
    }
    Nearest(adler, adler);
    Nearest(sum2, sum2);
    assert data[..|data|] == data;
    ReducedHalves(adler, sum2, adler0, sum20, data);
    r := Combined(adler, sum2);
  }

  // The checksum of buf, continued from adler0; without a buffer, the checksum
  // of nothing, except that one byte is read before that is looked at.
  method Adler32Z(adler0: uint32, buf: Option<seq<uint8>>, len: nat) returns (r: nat)
    requires if buf.Some? then len == |buf.value| else len != 1
    ensures buf.None? ==> r == 1
    ensures buf.Some? ==>
      (r == Adler(adler0, buf.value) <==>
        |buf.value| != 1 || adler0 / 0x1_0000 + SumA(adler0 % 0x1_0000, buf.value) < 131042)
    ensures buf.Some? && Reduced(adler0) ==> r == Adler(adler0, buf.value)
  {
    hide Adler;
    var sum2 := adler0 / 0x1_0000 % 0x1_0000;
    var adler := adler0 % 0x1_0000;
    WholeNumber(adler0);
    if len == 1 {
      assert buf.value == [buf.value[0]];
      r := OneByte(adler, sum2, buf.value[0]);
    } else if buf.None? {
      r := 1;
    } else if len < 16 {
      r := Short(adler, sum2, buf.value);
    } else {
      r := Long(adler, sum2, buf.value);
    }
  }

  // A second half that is not reduced, and a byte for which it matters.
  method OneByteTooLarge() returns (r: nat)
    ensures r != Adler(65520 + 0x1_0000 * 65535, [0])
  {
    hide Adler, SumA;
    var adler: uint32 := 65520 + 0x1_0000 * 65535;
    var data: seq<uint8> := [0];
    OneByteSums(65520, 65535, 0);
    RemainderIs(65520, 65520, 0);
    NoByte();
    r := Adler32Z(adler, Some(data), 1);
  }

  lemma NoByte()
    ensures ByteValue(0) == 0
  {
  }

  lemma WholeNumber(adler: nat)
    requires adler < 0x1_0000_0000
    ensures adler / 0x1_0000 < 0x1_0000 && adler / 0x1_0000 % 0x1_0000 == adler / 0x1_0000
    ensures Combined(adler % 0x1_0000, adler / 0x1_0000) == adler
  {
    DivSplits(adler, 0x1_0000, adler / 0x1_0000, adler % 0x1_0000);
    Below(adler, 0x1_0000, 0x1_0000);
    DivisionIs(adler / 0x1_0000, 0x1_0000, 0, adler / 0x1_0000);
  }

  // ----- adler32_combine_

  lemma SumALast(a: nat, data: seq<uint8>)
    ensures data == [] ==> SumA(a, data) == a % 65521
    ensures data != [] ==> SumA(a, data) == (SumA(a, data[..|data| - 1]) + ByteValue(data[|data| - 1])) % 65521
  {
  }

  // What a checksum begun with 1 and 0 says about one begun with a and b.
  lemma {:induction false} SumABegun(a: nat, data: seq<uint8>)
    ensures (SumA(a, data) + 1) % 65521 == (a + SumA(1, data)) % 65521
  {
    hide ByteValue, SumA;
    SumALast(a, data);
    SumALast(1, data);
    if data == [] {
      ModAdds(a % 65521, a, 1);
      ModReduced(a);
    } else {
      var front := data[..|data| - 1];
      SumABegun(a, front);
      NextBegunA(SumA(a, front), SumA(1, front), a, ByteValue(data[|data| - 1]));
    }
  }

  lemma NextBegunA(sa: nat, ta: nat, a: nat, c: nat)
    requires (sa + 1) % 65521 == (a + ta) % 65521
    ensures ((sa + c) % 65521 + 1) % 65521 == (a + (ta + c) % 65521) % 65521
  {
    ModReduced(sa + c);
    ModAdds((sa + c) % 65521, sa + c, 1);
    ModReduced(ta + c);
    ModAdds((ta + c) % 65521, ta + c, a);
    ModAdds(sa + 1, a + ta, c);
  }

  function Times(n: nat, a: nat): nat {
    n * a
  }

  lemma TimesNext(n: nat, a: nat)
    ensures Times(n + 1, a) == Times(n, a) + a && Times(0, a) == 0
  {
  }

  lemma SumBLast(a: nat, b: nat, data: seq<uint8>)
    ensures data == [] ==> SumB(a, b, data) == b % 65521
    ensures data != [] ==> SumB(a, b, data) == (SumB(a, b, data[..|data| - 1]) + SumA(a, data)) % 65521
  {
    hide SumA;
  }

  lemma {:induction false} SumBBegun(a: nat, b: nat, data: seq<uint8>)
    ensures (SumB(a, b, data) + |data|) % 65521 == (b + Times(|data|, a) + SumB(1, 0, data)) % 65521
  {
    hide SumA, SumB, Times;
    SumBLast(a, b, data);
    SumBLast(1, 0, data);
    if data == [] {
      ModReduced(b);
      TimesNext(0, a);
    } else {
      var front, n := data[..|data| - 1], |data| - 1;
      SumBBegun(a, b, front);
      SumABegun(a, data);
      TimesNext(n, a);
      NextBegun(SumB(a, b, front), SumA(a, data), b, n, a, SumB(1, 0, front), SumA(1, data));
    }
  }

  lemma NextBegun(sb: nat, sa: nat, b: nat, n: nat, a: nat, tb: nat, ta: nat)
    requires (sb + n) % 65521 == (b + Times(n, a) + tb) % 65521
    requires (sa + 1) % 65521 == (a + ta) % 65521
    ensures ((sb + sa) % 65521 + (n + 1)) % 65521 == (b + (Times(n, a) + a) + (tb + ta) % 65521) % 65521
  {
    hide Times;
    ModReduced(sb + sa);
    ModAdds((sb + sa) % 65521, sb + sa, n + 1);
    ModReduced(tb + ta);
    ModAdds((tb + ta) % 65521, tb + ta, b + (Times(n, a) + a));
    ModAdds(sb + n, b + Times(n, a) + tb, sa + 1);
    ModAdds(sa + 1, a + ta, b + Times(n, a) + tb);
  }

  lemma {:induction false} SumsConcat(a: nat, b: nat, x: seq<uint8>, y: seq<uint8>)
    ensures SumA(a, x + y) == SumA(SumA(a, x), y) && SumB(a, b, x + y) == SumB(SumA(a, x), SumB(a, b, x), y)
  {
    if y == [] {
      assert x + y == x;
      ModReduced(a);
      Nearest(SumA(a, x), SumA(a, x));
      Nearest(SumB(a, b, x), SumB(a, b, x));
    } else {
      assert (x + y)[..|x + y| - 1] == x + y[..|y| - 1];
      SumsConcat(a, b, x, y[..|y| - 1]);
    }
  }

  // The formula of adler32_combine_ on the halves of two checksums, the second
  // begun with 1 and 0, of `rem` bytes modulo 65521.
  lemma CombineHalves(a1: nat, b1: nat, rem: nat, a2: nat, b2: nat, data: seq<uint8>)
    requires rem == |data| % 65521
    requires a2 == SumA(1, data) && b2 == SumB(1, 0, data)
    ensures (a1 + a2 + 65520) % 65521 == SumA(a1, data)
    ensures 0 <= Times(rem, a1) % 65521 + b1 + b2 + 65521 - rem
    ensures (Times(rem, a1) % 65521 + b1 + b2 + 65521 - rem) % 65521 == SumB(a1, b1, data)
  {
    hide SumA, SumB, Times;
    SumABegun(a1, data);
    Nearest(SumA(a1, data), SumA(a1, data));
    ModAdds(SumA(a1, data) + 1, a1 + a2, 65520);
    RemainderIs(SumA(a1, data) + 65521, SumA(a1, data), 1);
    SumBBegun(a1, b1, data);
    Nearest(SumB(a1, b1, data), SumB(a1, b1, data));
    DivSplits(|data|, 65521, |data| / 65521, rem);
    TimesMod(|data|, rem, |data| / 65521, a1);
    var n := |data|;
    var x := Times(rem, a1) % 65521 + b1 + b2 + 65521 - rem;
    ModReduced(Times(rem, a1));
    ModAdds(Times(rem, a1) % 65521, Times(n, a1), b1 + b2);
    ModAdds(b1 + Times(n, a1) + b2, SumB(a1, b1, data) + n, 65521 - rem);
    ModAdds(Times(rem, a1) % 65521 + (b1 + b2), Times(n, a1) + (b1 + b2), 65521 - rem);
    RemainderIs(SumB(a1, b1, data) + n + (65521 - rem), SumB(a1, b1, data), n / 65521 + 1);
  }

  lemma TimesMod(n: nat, rem: nat, q: nat, a: nat)
    requires n == 65521 * q + rem
    ensures Times(n, a) % 65521 == Times(rem, a) % 65521
  {
    DivSplits(Times(rem, a), 65521, Times(rem, a) / 65521, Times(rem, a) % 65521);
    MulGroups(65521, q, a);
    assert n * a == 65521 * (q * a) + rem * a;
    RemainderIs(Times(n, a), Times(rem, a) % 65521, Times(rem, a) / 65521 + q * a);
  }

  // Subtracting while it is too large, as often as it can be.
  lemma Subtracted(x: nat, y: nat, k: nat)
    requires x == y + 65521 * k && y < 65521
    ensures y == x % 65521
  {
    RemainderIs(x, y, k);
  }

  // sum1 | (sum2 << 16), where the first may reach the second's lowest bit
  function Or(sum1: nat, sum2: nat): nat
    requires sum1 < 0x2_0000
  {
    if sum1 < 0x1_0000 then Combined(sum1, sum2) else Combined(sum1 - 0x1_0000, sum2 - sum2 % 2 + 1)
  }

  // The bit that both have is set once, and every other bit kept.
  lemma OrSetsBit(sum1: nat, sum2: nat)
    requires 0x1_0000 <= sum1 < 0x2_0000
    ensures Or(sum1, sum2) % 0x1_0000 == sum1 % 0x1_0000
    ensures Or(sum1, sum2) / 0x1_0000 % 2 == 1 && Or(sum1, sum2) / 0x2_0000 == sum2 / 2
  {
  }

  // The first sum of a combination, and the second, before they are reduced.
  function First(adler1: nat, adler2: nat): nat {
    adler1 % 0x1_0000 + adler2 % 0x1_0000 + 65520
  }

  function Second(adler1: nat, adler2: nat, rem: nat): (r: nat)
    requires rem < 65521
  {
    Times(rem, adler1 % 0x1_0000) % 65521 + adler1 / 0x1_0000 + adler2 / 0x1_0000 + 65521 - rem
  }

  // They are small enough for as many subtractions as there are.
  predicate CombineFits(adler1: nat, adler2: nat, len2: nat) {
    First(adler1, adler2) < 196563 && Second(adler1, adler2, len2 % 65521) < 262084
  }

  // The checksum of one string followed by another, from those of the two and
  // the length of the second.
  method Adler32Combine(adler1: uint32, adler2: uint32, len2: int) returns (r: nat)
    requires len2 < 0x8000_0000_0000_0000
    ensures len2 < 0 ==> r == 0xffff_ffff
    ensures forall data: seq<uint8> :: len2 == |data| && adler2 == Adler(1, data) ==>
      (r == Adler(adler1, data) <==> CombineFits(adler1, adler2, len2))
    ensures Reduced(adler1) && Reduced(adler2) && 0 <= len2 ==> CombineFits(adler1, adler2, len2)
  {
    hide Adler, Mod, Mod63, Times;
    if len2 < 0 {
      return 0xffff_ffff;
    }
    Mod63IsMod(len2);
    var rem: uint32 := Mod63(len2);
    var sum1: uint32 := adler1 % 0x1_0000;
    ProductFits(rem, sum1);
    var sum2: uint32 := Times(rem, sum1);
    ModIsMod(sum2);
    sum2 := Mod(sum2);
    var first: uint32 := sum1 + adler2 % 0x1_0000 + 65521 - 1;
    var second: uint32 := sum2 + (adler1 / 0x1_0000 + adler2 / 0x1_0000 + 65521 - rem);
    ghost var s1, s2 := first, second;
    if first >= 65521 { first := first - 65521; }
    if first >= 65521 { first := first - 65521; }
    if second >= 131042 { second := second - 131042; }
    if second >= 65521 { second := second - 65521; }
    r := Or(first, second);
    forall data: seq<uint8> | len2 == |data| && adler2 == Adler(1, data)
      ensures r == Adler(adler1, data) <==> CombineFits(adler1, adler2, len2)
    {
      CombineIs(adler1, adler2, rem, data);
      SubtractedIs(s1, first, (s1 - first) / 65521);
      SubtractedIs(s2, second, (s2 - second) / 65521);
      CombinedOnce(first, second, s1 % 65521, s2 % 65521);
    }
  }

  // Bytes whose checksum has a first half just short of the modulus.
  function AlmostModulus(): seq<uint8> {
    seq(256, i => 255) + [239]
  }

  lemma {:induction false} OnesSum(n: nat)
    requires n <= 256
    ensures SumA(1, seq(n, i => 255 as uint8)) == 1 + 255 * n
  {
    var ones := seq(n, i => 255 as uint8);
    SumALast(1, ones);
    if n == 0 {
      RemainderIs(1, 1, 0);
    } else {
      assert ones[..n - 1] == seq(n - 1, i => 255 as uint8);
      OnesSum(n - 1);
      RemainderIs(1 + 255 * n, 1 + 255 * n, 0);
    }
  }

  lemma AlmostModulusSum()
    ensures SumA(1, AlmostModulus()) == 65520 && |AlmostModulus()| == 257
  {
    hide SumA;
    var data := AlmostModulus();
    assert data[..|data| - 1] == seq(256, i => 255 as uint8);
    OnesSum(256);
    SumALast(1, data);
    RemainderIs(65520, 65520, 0);
  }

  lemma TooLargeToCombine()
    ensures |AlmostModulus()| == 257 && !CombineFits(65535, Adler(1, AlmostModulus()), 257)
  {
    hide SumA, SumB, Times, AlmostModulus;
    AlmostModulusSum();
    Halves(SumA(1, AlmostModulus()), SumB(1, 0, AlmostModulus()));
  }

  // A first checksum with a half that is not reduced: the combination is not the
  // checksum of the two strings.
  method CombineTooLarge() returns (combined: nat, whole: nat)
    ensures whole == Adler(65535, AlmostModulus()) && combined != whole
  {
    hide Adler, SumA, CombineFits, AlmostModulus;
    TooLargeToCombine();
    var data := AlmostModulus();
    assert Reduced(1);
    var adler2 := Adler32Z(1, Some(data), 257);
    AdlerFits(1, data);
    whole := Adler32Z(65535, Some(data), 257);
    combined := Adler32Combine(65535, adler2, 257);
  }

  lemma AdlerFits(adler: nat, data: seq<uint8>)
    ensures Adler(adler, data) < 0x1_0000_0000
  {
    hide SumA, SumB;
  }

  // Taking the modulus away leaves the remainder exactly when less than it is left.
  lemma SubtractedIs(x: nat, y: nat, k: nat)
    requires x == y + 65521 * k
    ensures y < 65521 <==> y == x % 65521
  {
    if y < 65521 {
      Subtracted(x, y, k);
    }
  }

  // Different halves below 2^16 make different numbers.
  lemma CombinedOnce(a: nat, b: nat, c: nat, d: nat)
    requires a < 0x1_0000 && c < 0x1_0000
    ensures Combined(a, b) == Combined(c, d) <==> a == c && b == d
  {
    Halves(a, b);
    Halves(c, d);
  }

  lemma ProductFits(x: nat, y: nat)
    requires x < 65521 && y < 65536
    ensures Times(x, y) < 0x1_0000_0000
  {
    MulMonotone(x, y, 65535);
    MulMonotone(65535, x, 65520);
  }

  lemma CombineIs(adler1: nat, adler2: nat, rem: nat, data: seq<uint8>)
    requires adler2 == Adler(1, data) && rem == |data| % 65521
    ensures Reduced(adler2)
    ensures var a1, b1 := adler1 % 0x1_0000, adler1 / 0x1_0000;
      var a2, b2 := adler2 % 0x1_0000, adler2 / 0x1_0000;
      && 0 <= Times(rem, a1) % 65521 + b1 + b2 + 65521 - rem
      && Adler(adler1, data) == Combined((a1 + a2 + 65520) % 65521,
        (Times(rem, a1) % 65521 + b1 + b2 + 65521 - rem) % 65521)
  {
    hide SumA, SumB, Times;
    var a2, b2 := SumA(1, data), SumB(1, 0, data);
    Halves(a2, b2);
    CombineHalves(adler1 % 0x1_0000, adler1 / 0x1_0000, rem, a2, b2, data);
  }

  // So combining the checksums of two strings gives that of both.
  lemma CombineIsConcatenation(x: seq<uint8>, y: seq<uint8>)
    ensures Reduced(Adler(1, x)) && Adler(Adler(1, x), y) == Adler(1, x + y)
  {
    hide SumA, SumB;
    Halves(SumA(1, x), SumB(1, 0, x));
    SumsConcat(1, 0, x, y);
  }
}
