// ge_scalarmult_base: a scalar as 64 signed digits to the base 16, and the sum
// of a table entry for each of them.
module ScalarComb {
  import opened Basics
  import opened Powers
  import opened BitStream
  import opened ByteStrings
  import opened AbelianGroup
  import opened ScalarSlide

  // e[0] + 16 e[1] + 256 e[2] + ...
  function HexValue(e: seq<int>): int {
    if e == [] then 0 else e[0] + 16 * HexValue(e[1..])
  }

  lemma {:induction false} HexAdd(e: seq<int>, j: nat, d: int)
    requires j < |e|
    ensures HexValue(e[j := e[j] + d]) == HexValue(e) + Scale(d, 4 * j)
    decreases j
  {
    hide Pow2;
    var t := e[j := e[j] + d];
    if j == 0 {
      SmallPowers();
      assert t[1..] == e[1..];
    } else {
      assert t[1..] == e[1..][j - 1 := e[1..][j - 1] + d];
      HexAdd(e[1..], j - 1, d);
      Pow2Adds(4, 4 * (j - 1));
      SmallPowers();
      MulGroups(d, 16, Pow2(4 * (j - 1)));
      MulGroups(16, d, Pow2(4 * (j - 1)));
    }
  }

  function Nibbles(a: seq<uint8>): (e: seq<int>)
    ensures |e| == 2 * |a|
  {
    if a == [] then [] else [Low(ByteValue(a[0]), 4), Low(High(ByteValue(a[0]), 4), 4)] + Nibbles(a[1..])
  }

  lemma {:induction false} NibblesValue(a: seq<uint8>)
    ensures HexValue(Nibbles(a)) == Value(a)
  {
    hide Low, High, ByteValue;
    if a != [] {
      NibblesValue(a[1..]);
      var e, b := Nibbles(a), ByteValue(a[0]);
      assert e[1..][1..] == Nibbles(a[1..]);
      assert HexValue(e) == e[0] + 16 * (e[1] + 16 * HexValue(e[1..][1..]));
      TwoNibbles(b);
    }
  }

  lemma TwoNibbles(b: nat)
    requires b < 256
    ensures b == Low(b, 4) + 16 * Low(High(b, 4), 4)
    ensures Low(b, 4) < 16 && Low(High(b, 4), 4) < 16
    ensures b <= 127 ==> Low(High(b, 4), 4) <= 7
  {
    hide Low, High, Pow2;
    SmallPowers();
    Pow2Eight(0);
    LowHigh(b, 4);
    LowAll(High(b, 4), 4);
  }

  lemma {:induction false} NibbleAt(a: seq<uint8>, i: nat)
    requires i < |a|
    ensures Nibbles(a)[2 * i] == Low(ByteValue(a[i]), 4)
    ensures Nibbles(a)[2 * i + 1] == Low(High(ByteValue(a[i]), 4), 4)
    decreases i
  {
    hide Low, High, ByteValue;
    if i > 0 {
      NibbleAt(a[1..], i - 1);
    }
  }

  // The places below i have their signed digits; a carry goes into place i.
  ghost predicate Balancing(e: seq<int>, v: int, i: nat, carry: int) {
    && |e| == 64 && i <= 64 && (carry == 0 || carry == 1)
    && HexValue(e) + Scale(carry, 4 * i) == v
    && (forall j | 0 <= j < i :: -8 <= e[j] <= 8)
    && (forall j | i <= j < 63 :: 0 <= e[j] < 16)
    && (i <= 63 ==> 0 <= e[63] <= 7)
  }

  method SplitNibbles(e: array<int8>, a: seq<uint8>)
    requires e.Length == 64 && |a| == 32 && ByteValue(a[31]) <= 127
    modifies e
    ensures Balancing(e[..], Value(a), 0, 0)
  {
    hide Low, High, ByteValue, HexValue, Value, Scale, Nibbles;
    var i := 0;
    while i < 32
      invariant 0 <= i <= 32
      invariant forall j | 0 <= j < 2 * i :: e[j] == Nibbles(a)[j]
      invariant forall j | 0 <= j < 2 * i :: 0 <= e[j] < 16
      invariant i == 32 ==> e[63] <= 7
    {
      NibbleAt(a, i);
      TwoNibbles(ByteValue(a[i]));
      e[2 * i] := Low(ByteValue(a[i]), 4);
      e[2 * i + 1] := Low(High(ByteValue(a[i]), 4), 4);
      i := i + 1;
    }
    assert e[..] == Nibbles(a);
    NibblesValue(a);
    ScaleOne(0);
  }

  lemma NextDigit(e: seq<int>, v: int, i: nat, carry: int, d: int, next: int)
    requires Balancing(e, v, i, carry) && i < 63
    requires next == (e[i] + carry + 8) / 16 && d == e[i] + carry - 16 * next
    ensures Balancing(e[i := d], v, i + 1, next)
  {
    hide HexValue, Scale;
    HexAdd(e, i, d - e[i]);
    assert e[i] + (d - e[i]) == d;
    CarryScales(carry, next, i);
  }

  lemma CarryScales(carry: int, next: int, i: nat)
    ensures Scale(carry - 16 * next, 4 * i) + Scale(next, 4 * (i + 1)) == Scale(carry, 4 * i)
  {
    hide Pow2;
    Pow2Adds(4, 4 * i);
    SmallPowers();
    MulSpreads(Pow2(4 * i), carry, -16 * next);
    MulGroups(next, 16, Pow2(4 * i));
  }

  lemma LastDigit(e: seq<int>, v: int, carry: int, t: seq<int>)
    requires Balancing(e, v, 63, carry) && t == e[63 := e[63] + carry]
    ensures HexValue(t) == v
    ensures forall j | 0 <= j < 64 :: -8 <= t[j] <= 8
  {
    hide HexValue, Scale;
    HexAdd(e, 63, carry);
  }

  // Digits between -8 and 8 that amount to the scalar.
  method SignedDigits(e: array<int8>, a: seq<uint8>)
    requires e.Length == 64 && |a| == 32 && ByteValue(a[31]) <= 127
    modifies e
    ensures HexValue(e[..]) == Value(a)
    ensures forall j | 0 <= j < 64 :: -8 <= e[..][j] <= 8
  {
    hide HexValue, Scale, Value, Balancing;
    SplitNibbles(e, a);
    var carry := 0;
    var i := 0;
    while i < 63
      invariant 0 <= i <= 63 && Balancing(e[..], Value(a), i, carry)
    {
      ghost var s, c := e[..], carry;
      Within8(s, Value(a), i, carry);
      e[i] := e[i] + carry;
      carry := (e[i] + 8) / 16;
      e[i] := e[i] - 16 * carry;
      NextDigit(s, Value(a), i, c, e[i], carry);
      assert e[..] == s[i := e[i]];
      i := i + 1;
    }
    ghost var s := e[..];
    Within8(s, Value(a), 63, carry);
    e[63] := e[63] + carry;
    LastDigit(s, Value(a), carry, e[..]);
  }

  lemma Within8(e: seq<int>, v: int, i: nat, carry: int)
    requires Balancing(e, v, i, carry) && i <= 63
    ensures |e| == 64 && 0 <= e[i] < 16 && 0 <= carry <= 1
  {
  }

  // ----- the table and the sums

  // Row `pos` holds 1 to 8 times 256^pos x.
  ghost predicate CombTable<G(!new)>(g: Group<G>, table: seq<seq<G>>, x: G) {
    |table| == 32 && forall pos | 0 <= pos < 32 ::
      |table[pos]| == 8 && forall j | 0 <= j < 8 :: table[pos][j] == Multiple(g, Scale(j + 1, 8 * pos), x)
  }

  // b - ((uint8_t)((-bnegative) & b) << 1), cut to eight bits: the absolute
  // value of b.
  function Abs8(b: int8): (r: int)
    requires -128 < b
    ensures r == if b < 0 then -b else b
  {
    (b - 2 * (if b < 0 then b % 256 else 0)) % 256
  }

  // b times 256^pos x, looking at every entry of the row.
  method TableSelect<G(!new)>(g: Group<G>, table: seq<seq<G>>, pos: nat, b: int8, ghost x: G) returns (t: G)
    requires Lawful(g) && CombTable(g, table, x) && pos < 32 && -8 <= b <= 8
    ensures t == Multiple(g, Scale(b, 8 * pos), x)
  {
    hide Lawful, Add, Neg, Multiple, Scale, Pow2;
    var babs := Abs8(b);
    t := g.zero;
    var j := 0;
    while j < 8
      invariant 0 <= j <= 8
      invariant t == if 0 < babs <= j then table[pos][babs - 1] else g.zero
    {
      if babs == j + 1 {
        t := table[pos][j];
      }
      j := j + 1;
    }
    ScaleOne(8 * pos);
    MultipleOfNothing(g, x);
    var minust := Neg(g, t);
    if b < 0 {
      t := minust;
      MultipleNegates(g, Scale(babs, 8 * pos), x);
      ScaleNegates(babs, 8 * pos);
    }
  }

  lemma ScaleNegates(d: int, k: nat)
    ensures Scale(-d, k) == -Scale(d, k)
  {
    hide Pow2;
    MulSpreads(Pow2(k), d, -d);
  }

  // Every other digit, from the first or from the second on, in units of 256.
  function Alternate(e: seq<int>, odd: nat, k: nat): int
    requires odd <= 1 && 2 * k <= |e|
  {
    if k == 0 then 0 else Alternate(e, odd, k - 1) + Scale(e[2 * (k - 1) + odd], 8 * (k - 1))
  }

  lemma {:induction false} AlternateSplit(e: seq<int>, k: nat)
    requires 2 * k <= |e|
    ensures HexValue(e) == Alternate(e, 0, k) + 16 * Alternate(e, 1, k) + Scale(HexValue(e[2 * k..]), 8 * k)
  {
    hide HexValue, Scale;
    if k == 0 {
      ScaleAtZero(HexValue(e));
      assert e[0..] == e;
    } else {
      AlternateSplit(e, k - 1);
      HexFirst(e, 2 * k - 2);
      HexFirst(e, 2 * k - 1);
      ScaleDigits(e[2 * k - 2], e[2 * k - 1], HexValue(e[2 * k..]), 8 * (k - 1));
    }
  }

  lemma HexFirst(e: seq<int>, j: nat)
    requires j < |e|
    ensures HexValue(e[j..]) == e[j] + 16 * HexValue(e[j + 1..])
  {
    assert e[j..][1..] == e[j + 1..];
  }

  lemma ScaleAtZero(v: int)
    ensures Scale(v, 0) == v
  {
    SmallPowers();
  }

  lemma ScaleDigits(x: int, y: int, rest: int, k: nat)
    ensures Scale(x + 16 * (y + 16 * rest), k) == Scale(x, k) + 16 * Scale(y, k) + Scale(rest, k + 8)
  {
    hide Pow2;
    Pow2Eight(k);
    MulSpreads(Pow2(k), x, 16 * (y + 16 * rest));
    MulGroups(Pow2(k), 16, y + 16 * rest);
    MulGroups(16, Pow2(k), y + 16 * rest);
    MulSpreads(Pow2(k), y, 16 * rest);
    MulGroups(Pow2(k), 16, rest);
    MulGroups(16, Pow2(k), rest);
    MulGroups(Pow2(k), 256, rest);
    MulGroups(256, Pow2(k), rest);
  }

  lemma AlternateAll(e: seq<int>)
    requires |e| == 64
    ensures HexValue(e) == Alternate(e, 0, 32) + 16 * Alternate(e, 1, 32)
  {
    hide HexValue, Alternate, Scale;
    AlternateSplit(e, 32);
    NoHex(e[64..], 256);
  }

  lemma NoHex(e: seq<int>, k: nat)
    requires e == []
    ensures Scale(HexValue(e), k) == 0
  {
  }

  // h += e[i] 256^(i/2) x for every other i.
  method AddAlternate<G(!new)>(g: Group<G>, h0: G, e: array<int8>, odd: nat, table: seq<seq<G>>, ghost x: G,
    ghost m: int)
    returns (h: G)
    requires Lawful(g) && CombTable(g, table, x) && odd <= 1
    requires e.Length == 64 && forall j | 0 <= j < 64 :: -8 <= e[..][j] <= 8
    requires h0 == Multiple(g, m, x)
    ensures h == Multiple(g, m + Alternate(e[..], odd, 32), x)
  {
    hide Lawful, Add, Multiple, Scale, CombTable;
    h := h0;
    var i := odd;
    while i < 64
      invariant odd <= i <= 64 + odd && (i - odd) % 2 == 0
      invariant h == Multiple(g, m + Alternate(e[..], odd, (i - odd) / 2), x)
    {
      assert e[..][i] == e[i];
      var t := TableSelect(g, table, i / 2, e[i], x);
      MultipleAdds(g, m + Alternate(e[..], odd, (i - odd) / 2), Scale(e[i], 8 * (i / 2)), x);
      h := Add(g, h, t);
      i := i + 2;
    }
  }

  method Double<G(!new)>(g: Group<G>, h: G, ghost m: int, ghost x: G) returns (r: G)
    requires Lawful(g) && h == Multiple(g, m, x)
    ensures r == Multiple(g, 2 * m, x)
  {
    hide Lawful, Add, Multiple;
    r := Add(g, h, h);
    MultipleAdds(g, m, m, x);
  }

  // h = a B
  method GeScalarmultBase<G(!new)>(g: Group<G>, a: seq<uint8>, table: seq<seq<G>>, ghost pointB: G) returns (h: G)
    requires Lawful(g) && CombTable(g, table, pointB)
    requires |a| == 32 && ByteValue(a[31]) <= 127
    ensures h == Multiple(g, Value(a), pointB)
  {
    hide Lawful, Add, Multiple, Alternate, CombTable, HexValue, Value, ByteValue;
    var e := new int8[64];
    SignedDigits(e, a);
    AlternateAll(e[..]);
    MultipleOfNothing(g, pointB);
    h := AddAlternate(g, g.zero, e, 1, table, pointB, 0);
    ghost var m := Alternate(e[..], 1, 32);
    h := Double(g, h, m, pointB);
    h := Double(g, h, 2 * m, pointB);
    h := Double(g, h, 4 * m, pointB);
    h := Double(g, h, 8 * m, pointB);
    h := AddAlternate(g, h, e, 0, table, pointB, 16 * m);
  }
}
