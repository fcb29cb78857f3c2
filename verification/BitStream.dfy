// The bit stream that inflate reads: bytes, least significant bit first
// (section 3.1.1 of RFC 1951), and a bit accumulator holding the next few bits.
module BitStream {
  import opened Basics
  import opened Powers

  function ByteValue(c: uint8): (r: nat)
    ensures r < 256
  {
    c
  }

  // The bytes as one number, least significant byte first.
  function Value(bytes: seq<uint8>): nat {
    if bytes == [] then 0 else ByteValue(bytes[0]) + 256 * Value(bytes[1..])
  }

  // All the bits still to come when `hold` has `bits` of them.
  function Stream(hold: nat, bits: nat, rest: seq<uint8>): nat {
    hold + Pow2(bits) * Value(rest)
  }

  lemma Pow2Eight(bits: nat)
    ensures Pow2(8) == 256 && Pow2(bits + 8) == Pow2(bits) * 256
  {
    Pow2Adds(bits, 8);
    assert Pow2(8) == 2 * Pow2(7) == 4 * Pow2(6) == 8 * Pow2(5) == 16 * Pow2(4);
    assert Pow2(4) == 2 * Pow2(3) == 4 * Pow2(2) == 8 * Pow2(1);
  }

  // A byte joins the bits above those held, and the stream stays what it was.
  lemma StreamPull(hold: nat, bits: nat, rest: seq<uint8>)
    requires rest != [] && hold < Pow2(bits)
    ensures hold + ByteValue(rest[0]) * Pow2(bits) < Pow2(bits + 8)
    ensures Stream(hold + ByteValue(rest[0]) * Pow2(bits), bits + 8, rest[1..]) == Stream(hold, bits, rest)
  {
    hide Pow2, ByteValue;
    Pow2Eight(bits);
    PullArithmetic(hold, Pow2(bits), ByteValue(rest[0]), Value(rest[1..]));
  }

  lemma PullArithmetic(hold: nat, p: nat, b: nat, v: nat)
    requires hold < p && b < 256
    ensures hold + b * p < p * 256
    ensures hold + b * p + (p * 256) * v == hold + p * (b + 256 * v)
  {
    MulMonotone(p, b, 255);
    MulSpreads(p, b, 256 * v);
    MulGroups(p, 256, v);
  }

  // The low bits of the stream are those of the accumulator.
  lemma StreamPeek(hold: nat, bits: nat, rest: seq<uint8>, k: nat)
    requires hold < Pow2(bits) && k <= bits
    ensures Low(Stream(hold, bits, rest), k) == Low(hold, k)
    ensures High(Stream(hold, bits, rest), k) == Stream(High(hold, k), bits - k, rest)
    ensures High(hold, k) < Pow2(bits - k)
  {
    hide Value;
    Pow2Adds(k, bits - k);
    PeekArithmetic(hold, Pow2(k), Pow2(bits - k), Value(rest));
  }

  lemma PeekArithmetic(hold: nat, p: nat, q: nat, v: nat)
    requires 0 < p && 0 < q && hold < p * q
    ensures 0 <= (p * q) * v && (hold + (p * q) * v) % p == hold % p
    ensures (hold + (p * q) * v) / p == hold / p + q * v
    ensures hold / p < q
  {
    var h, l := hold / p, hold % p;
    assert p * (h + q * v) == p * h + (p * q) * v by { assert p * (q * v) == (p * q) * v; }
    assert 0 <= q * v;
    DivisionIs(hold + (p * q) * v, p, h + q * v, l);
    MulMonotone(p, q, h);
  }

  lemma MulMonotone(p: nat, q: nat, h: nat)
    ensures q <= h ==> p * q <= p * h
  {
  }

  // The bytes from k on are what is left of the stream once the bits before
  // them have been dropped.
  lemma {:induction false} StreamFrom(hold: nat, bits: nat, rest: seq<uint8>, k: nat)
    requires hold < Pow2(bits) && k <= |rest|
    ensures High(Stream(hold, bits, rest), bits + 8 * k) == Value(rest[k..])
    decreases k
  {
    hide Pow2, Value, ByteValue;
    if k == 0 {
      StreamPeek(hold, bits, rest, bits);
      NothingHeld(High(hold, bits), rest);
      assert rest[0..] == rest;
    } else {
      StreamPull(hold, bits, rest);
      StreamFrom(hold + ByteValue(rest[0]) * Pow2(bits), bits + 8, rest[1..], k - 1);
      assert rest[1..][k - 1..] == rest[k..];
    }
  }

  lemma NothingHeld(hold: nat, rest: seq<uint8>)
    requires hold < Pow2(0)
    ensures Stream(hold, 0, rest) == Value(rest)
  {
  }

  // Whole bytes can be given back: what they hold is still in the input.
  lemma GiveBack(hold: nat, bits: nat, rest: seq<uint8>, stream: nat, used: nat, hold1: nat, bits1: nat, k: nat,
    n: nat)
    requires hold < Pow2(bits) && stream == Stream(hold, bits, rest) && k <= |rest|
    requires hold1 < Pow2(bits1) && High(stream, used) == Stream(hold1, bits1, rest[k..])
    requires used + bits1 == bits + 8 * k && 8 * n <= bits1 && n <= k
    ensures Low(hold1, bits1 - 8 * n) < Pow2(bits1 - 8 * n)
    ensures High(stream, used) == Stream(Low(hold1, bits1 - 8 * n), bits1 - 8 * n, rest[k - n..])
  {
    hide Pow2, Value;
    var x, m := High(stream, used), bits1 - 8 * n;
    StreamPeek(hold1, bits1, rest[k..], m);
    HighTwice(stream, used, m);
    StreamFrom(hold, bits, rest, k - n);
    LowHigh(x, m);
  }

  lemma LowHigh(x: nat, m: nat)
    ensures x == Low(x, m) + Pow2(m) * High(x, m)
  {
    hide Pow2;
  }
}
