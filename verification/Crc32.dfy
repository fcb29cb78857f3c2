// CRC-32 (section 8 of RFC 1952): the bit-serial register, polynomial
// multiplication, powers of x, and the combination of two checksums.
module Crc32 {
  import opened CrcPoly

  // ----- multmodp

  // What is still to be multiplied: p plus the rest of the product.
  ghost predicate Remaining(a: bv32, b: bv32, m: bv32, p: bv32, product: bv32) {
    Add(p, MulFrom(a, b, m)) == product
  }

  // m selects one coefficient, and a has a coefficient there or below.
  predicate Selects(a: bv32, m: bv32) {
    m != 0 && m & (m - 1) == 0 && a & (m | (m - 1)) != 0
  }

  // p after the coefficient at m has been taken in.
  function Taken(a: bv32, b: bv32, m: bv32, p: bv32): bv32 {
    if a & m != 0 then p ^ b else p
  }

  lemma TakeCoefficient(a: bv32, b: bv32, m: bv32, p: bv32, product: bv32)
    requires m != 0 && Remaining(a, b, m, p, product)
    ensures Remaining(a, MulX(b), m >> 1, Taken(a, b, m, p), product)
  {
    hide MulX, Add;
    AddAssociates(p, Pick(a & m != 0, b), MulFrom(a, MulX(b), m >> 1));
    AddIsXor(p, b);
    AddCancels(p, 0);
  }

  lemma LastCoefficient(a: bv32, b: bv32, m: bv32, p: bv32, product: bv32)
    requires m != 0 && m & (m - 1) == 0 && a & (m - 1) == 0
    requires Remaining(a, b, m, p, product)
    ensures Taken(a, b, m, p) == product
  {
    hide MulX, Add, MulFrom, Taken;
    TakeCoefficient(a, b, m, p, product);
    MulFromNothing(a, MulX(b), m);
    AddCancels(Taken(a, b, m, p), 0);
  }

  lemma AddIsXor(p: bv32, b: bv32)
    ensures Add(p, b) == p ^ b
  {
  }

  // Nothing is left of the product once a has no lower coefficient.
  lemma {:induction false} MulFromNothing(a: bv32, b: bv32, m: bv32)
    requires m & (m - 1) == 0 && m != 0 && a & (m - 1) == 0
    ensures MulFrom(a, b, m >> 1) == 0
    decreases m
  {
    hide MulX, Add;
    AddCancels(0, 0);
    if m >> 1 != 0 {
      NothingBelow(a, m);
      MulFromNothing(a, MulX(b), m >> 1);
    }
  }

  lemma NothingBelow(a: bv32, m: bv32)
    requires m & (m - 1) == 0 && m >> 1 != 0 && a & (m - 1) == 0
    ensures (m >> 1) & ((m >> 1) - 1) == 0 && a & ((m >> 1) - 1) == 0 && a & (m >> 1) == 0
  {
  }

  lemma NextMask(a: bv32, m: bv32)
    requires Selects(a, m) && (a & m == 0 || a & (m - 1) != 0)
    ensures m >> 1 < m && Selects(a, m >> 1)
  {
  }

  // One round: either it was the last coefficient, or there is one below.
  lemma Round(a: bv32, b: bv32, m: bv32, p: bv32, product: bv32)
    requires Selects(a, m) && Remaining(a, b, m, p, product)
    ensures if a & m != 0 && a & (m - 1) == 0 then
              p ^ b == product
            else
              && m >> 1 < m && Selects(a, m >> 1)
              && Remaining(a, MulX(b), m >> 1, if a & m != 0 then p ^ b else p, product)
  {
    hide MulX, MulFrom, Remaining;
    if a & m != 0 && a & (m - 1) == 0 {
      LastCoefficient(a, b, m, p, product);
    } else {
      TakeCoefficient(a, b, m, p, product);
      NextMask(a, m);
    }
  }

  // The loop ends at the last coefficient of a, so there must be one.
  method Multmodp(a: bv32, b0: bv32) returns (p: bv32)
    requires a != 0
    ensures p == Mul(a, b0)
  {
    hide MulX, MulFrom, Remaining, Mul, Selects;
    var m, b := ONE, b0;
    p := 0;
    NothingTaken(a, b);
    FirstMask(a);
    while true
      invariant Selects(a, m) && Remaining(a, b, m, p, Mul(a, b0))
      decreases m
    {
      Round(a, b, m, p, Mul(a, b0));
      if a & m != 0 {
        p := p ^ b;
        if a & (m - 1) == 0 {
          break;
        }
      }
      m := m >> 1;
      b := MulX(b);
    }
  }

  lemma FirstMask(a: bv32)
    requires a != 0
    ensures Selects(a, ONE)
  {
  }

  lemma NothingTaken(a: bv32, b: bv32)
    ensures Remaining(a, b, ONE, 0, Mul(a, b))
  {
    hide MulFrom;
    AddCancels(MulFrom(a, b, ONE), 0);
  }
}
