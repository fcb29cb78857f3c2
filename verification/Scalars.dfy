// The two functions that work on scalars modulo l: x25519_sc_reduce takes 64
// bytes to their value modulo l, and sc_muladd computes (a b + c) mod l.
module Scalars {
  import opened Basics
  import opened Powers
  import opened BitStream
  import opened ByteStrings
  import opened ScalarLimbs
  import opened ScalarReduce
  import opened ScalarBytes
  import opened ScalarMul

  lemma OrderFits()
    ensures Pow2(25) == 0x200_0000 && Pow2(29) == 0x2000_0000 && L < Pow2(256)
  {
    hide Pow2;
    LargePowers();
    Pow2Adds(32, 32);
    Pow2Adds(64, 64);
    Pow2Adds(128, 128);
  }

  // What is loaded: limbs of 21 bits, and the last of as many as are left.
  lemma LoadedLimbs(v: nat, n: nat, bits: nat)
    requires 1 <= n && v < Pow2(bits) && 21 * (n - 1) <= bits
    ensures forall k | 0 <= k < n - 1 :: Digits(v, n)[k] < 0x20_0000
    ensures Digits(v, n)[n - 1] < Pow2(bits - 21 * (n - 1))
  {
    hide Pow2, Low, High, Digits, Value;
    LargePowers();
    forall k | 0 <= k < n - 1 ensures Digits(v, n)[k] < 0x20_0000 {
      DigitAt(v, n, k);
    }
    DigitAt(v, n, n - 1);
    StreamPeek(v, bits, [], 21 * (n - 1));
  }

  lemma Loaded12(a: seq<uint8>)
    requires |a| == 32
    ensures Loaded(Limbs12(a)) && LimbValue(Limbs12(a)) == Value(a)
  {
    hide Pow2, Limbs12, Digits, Value, LimbValue;
    Limbs12AreDigits(a);
    ValueFits(a);
    LoadedLimbs(Value(a), 12, 256);
    OrderFits();
  }

  lemma Loaded24(a: seq<uint8>)
    requires |a| == 64
    ensures LimbValue(Limbs24(a)) == Value(a)
    ensures (forall k | 0 <= k < 23 :: Limbs24(a)[k] < 0x20_0000) && Limbs24(a)[23] < 0x2000_0000
  {
    hide Pow2, Limbs24, Digits, Value, LimbValue;
    Limbs24AreDigits(a);
    ValueFits(a);
    LoadedLimbs(Value(a), 24, 512);
    OrderFits();
  }

  lemma TwelveLimbs(t: seq<int>)
    requires |t| == 24 && forall j | 12 <= j < 24 :: t[j] == 0
    ensures LimbValue(t) == LimbValue(t[..12])
  {
    hide LimbValue, Weight;
    LimbSplit(t, 12);
    ZeroLimbs(t[12..]);
    assert Weight(12) * 0 == 0;
  }

  // The first 32 bytes of s, from the reduced limbs t.
  method StoreLimbs(s: array<uint8>, t: array<int64>)
    requires s.Length >= 32 && t.Length == 24 && t as object != s
    requires 0 <= LimbValue(t[..]) < L
    requires forall j | 0 <= j < 11 :: 0 <= t[..][j] < 0x20_0000
    requires 0 <= t[..][11] <= 0x20_0000 && forall j | 12 <= j < 24 :: t[..][j] == 0
    modifies s
    ensures Value(s[..32]) == LimbValue(t[..])
    ensures forall j | 32 <= j < s.Length :: s[j] == old(s[j])
  {
    hide Pow2, Value, LimbValue, Bytes32;
    assert forall j | 0 <= j < 12 :: t[j] == t[..][j];
    var v: seq<nat> := seq(12, k requires 0 <= k < 12 && 0 <= t[k] reads t => t[k]);
    ghost var limbs := t[..];
    assert limbs[..12] == v;
    TwelveLimbs(limbs);
    OrderFits();
    Bytes32Value(v);
    var b := Bytes32(v);
    forall j | 0 <= j < 32 {
      s[j] := b[j];
    }
    assert s[..32] == b && t[..] == limbs;
  }

  // The scalar is overwritten in place by its value modulo l.
  method X25519ScReduce(s: array<uint8>)
    requires s.Length == 64
    modifies s
    ensures Value(s[..32]) == Value(old(s[..])) % L
    ensures forall j | 32 <= j < 64 :: s[j] == old(s[j])
  {
    hide Value, LimbValue, Limbs24;
    var l := Limbs24(s[..]);
    Loaded24(s[..]);
    var t := new int64[24](k requires 0 <= k < 24 => l[k]);
    assert t[..] == l;
    ReduceLimbs(t);
    StoreLimbs(s, t);
  }

  method ScMuladd(s: array<uint8>, a: array<uint8>, b: array<uint8>, c: array<uint8>)
    requires s.Length == a.Length == b.Length == c.Length == 32
    modifies s
    ensures Value(s[..]) == (Value(old(a[..])) * Value(old(b[..])) + Value(old(c[..]))) % L
  {
    hide Value, LimbValue, Limbs12, AllLimbs, Loaded;
    var la, lb, lc := Limbs12(a[..]), Limbs12(b[..]), Limbs12(c[..]);
    Loaded12(a[..]);
    Loaded12(b[..]);
    Loaded12(c[..]);
    ProductLimbs(la, lb, lc);
    var l := AddProduct(la, lb, lc);
    var t := new int64[24](k requires 0 <= k < 24 => l[k]);
    assert t[..] == l;
    RoundRun(t, 0, 12, 0x4_0000_0000_0000);
    RoundRun(t, 1, 11, 0x3_0000_4000_0000);
    ReduceLimbs(t);
    StoreLimbs(s, t);
    assert s[..] == s[..32];
  }
}
