// The addition chains of fe_invert and fe_pow22523, on limbs.
module FieldPower {
  import opened Basics
  import opened Powers
  import opened Field
  import opened FieldMul

  // n^e mod 2^255 - 19
  function PowMod(n: int, e: nat): int {
    if e == 0 then 1 else (n * PowMod(n, e - 1)) % P
  }

  lemma ModTimes(x: int, y: int)
    ensures (x * y) % P == (x % P * (y % P)) % P
  {
    var q, r, s, t := x / P, x % P, y / P, y % P;
    assert x == P * q + r && y == P * s + t;
    Distribute(P, q, r, y);
    Distribute(P, s, t, r);
    MulGroups(r, P, s);
    MulGroups(P, r, s);
    MulSpreads(P, q * y, r * s);
    CongruentIs(x * y, r * t, -(q * y + r * s));
  }

  lemma Distribute(p: int, q: int, r: int, y: int)
    ensures (p * q + r) * y == p * (q * y) + r * y
  {
    MulGroups(p, q, y);
  }

  lemma {:induction false} PowAdds(n: int, a: nat, b: nat)
    ensures PowMod(n, a + b) == (PowMod(n, a) * PowMod(n, b)) % P
    decreases a
  {
    PowReduced(n, b);
    if a > 0 {
      PowAdds(n, a - 1, b);
      var x, y := PowMod(n, a - 1), PowMod(n, b);
      ModTimes(n, x * y);
      ModTimes(n, (x * y) % P);
      ModTwice(x * y);
      MulGroups(n, x, y);
      ModTimes(n * x, y);
      ModTimes((n * x) % P, y);
      ModTwice(n * x);
    }
  }

  lemma ModTwice(x: int)
    ensures x % P % P == x % P
  {
  }

  lemma PowReduced(n: int, e: nat)
    ensures PowMod(n, e) % P == PowMod(n, e)
  {
  }

  // The limbs of n^e.
  ghost predicate Raised(t: seq<int>, n: int, e: nat) {
    Loose(t) && |t| == 10 && FieldValue(t) % P == PowMod(n, e)
  }

  lemma RaisedOnce(z: seq<int>)
    requires Loose(z) && |z| == 10
    ensures Raised(z, FieldValue(z), 1)
  {
    assert PowMod(FieldValue(z), 1) == (FieldValue(z) * PowMod(FieldValue(z), 0)) % P;
  }

  lemma RaisedProduct(h: seq<int>, f: seq<int>, g: seq<int>, n: int, a: nat, b: nat)
    requires Raised(f, n, a) && Raised(g, n, b)
    requires |h| == 10 && Tight(h) && Congruent(FieldValue(h), FieldValue(f) * FieldValue(g))
    ensures Raised(h, n, a + b)
  {
    hide FieldValue, PowMod;
    ModTimes(FieldValue(f), FieldValue(g));
    PowAdds(n, a, b);
  }

  lemma RaisedSquare(h: seq<int>, f: seq<int>, n: int, a: nat)
    requires Raised(f, n, a)
    requires |h| == 10 && Tight(h) && Congruent(FieldValue(h), FieldValue(f) * FieldValue(f))
    ensures Raised(h, n, 2 * a)
  {
    hide Raised, Tight, FieldValue, Congruent;
    RaisedProduct(h, f, f, n, a, a);
    assert a + a == 2 * a;
  }

  lemma RaisedLoose(t: seq<int>, n: int, e: nat)
    requires Raised(t, n, e)
    ensures Loose(t) && |t| == 10
  {
  }

  method Mul(h: array<int32>, f: array<int32>, g: array<int32>, ghost n: int, ghost a: nat, ghost b: nat)
    requires h.Length == f.Length == g.Length == 10 && Raised(f[..], n, a) && Raised(g[..], n, b)
    modifies h
    ensures Raised(h[..], n, a + b)
  {
    hide Raised, Loose, Tight, Congruent, FieldValue;
    ghost var sf, sg := f[..], g[..];
    RaisedLoose(sf, n, a);
    RaisedLoose(sg, n, b);
    FeMul(h, f, g);
    RaisedProduct(h[..], sf, sg, n, a, b);
  }

  method Square(h: array<int32>, f: array<int32>, ghost n: int, ghost a: nat)
    requires h.Length == f.Length == 10 && Raised(f[..], n, a)
    modifies h
    ensures Raised(h[..], n, 2 * a)
  {
    hide Raised, Loose, Tight, Congruent, FieldValue;
    ghost var sf := f[..];
    RaisedLoose(sf, n, a);
    FeSq(h, f);
    RaisedSquare(h[..], sf, n, a);
  }

  // fe_sq(h, f), and then fe_sq(h, h) until it is k squarings.
  method Squares(h: array<int32>, f: array<int32>, k: nat, ghost n: int, ghost a: nat)
    requires h.Length == f.Length == 10 && Raised(f[..], n, a) && 1 <= k
    modifies h
    ensures Raised(h[..], n, a * Pow2(k))
  {
    hide Raised, Pow2;
    SmallPowers();
    Square(h, f, n, a);
    var i := 1;
    while i < k
      invariant 1 <= i <= k && Raised(h[..], n, a * Pow2(i))
    {
      Square(h, h, n, a * Pow2(i));
      NextPower(a, i);
      i := i + 1;
    }
  }

  lemma NextPower(a: nat, i: nat)
    ensures 2 * (a * Pow2(i)) == a * Pow2(i + 1)
  {
    MulGroups(a, 2, Pow2(i));
    MulGroups(2, a, Pow2(i));
  }

  // 2^k - 1
  function Ones(k: nat): nat {
    Pow2(k) - 1
  }

  lemma OnesJoin(a: nat, b: nat)
    ensures Ones(a) * Pow2(b) + Ones(b) == Ones(a + b)
  {
    hide Pow2;
    Pow2Adds(a, b);
    MulSpreads(Pow2(b), Pow2(a), -1);
  }

  lemma LastExponents()
    ensures Ones(5) == 31 && Pow2(2) == 4
    ensures Ones(250) * Pow2(5) + 11 == Pow2(255) - 21
    ensures Ones(250) * Pow2(2) + 1 == Pow2(252) - 3
  {
    hide Pow2;
    SmallPowers();
    Pow2Adds(250, 5);
    Pow2Adds(250, 2);
  }

  // tmp = x^(2^b), and dst = tmp * y: from 2^a - 1 and 2^b - 1 to 2^(a + b) - 1.
  method Lengthen(dst: array<int32>, tmp: array<int32>, x: array<int32>, y: array<int32>, b: nat, ghost n: int,
    ghost a: nat)
    requires dst.Length == tmp.Length == x.Length == y.Length == 10 && y != tmp && 1 <= b
    requires Raised(x[..], n, Ones(a)) && Raised(y[..], n, Ones(b))
    modifies dst, tmp
    ensures Raised(dst[..], n, Ones(a + b))
  {
    hide Raised, Pow2, Ones;
    Squares(tmp, x, b, n, Ones(a));
    OnesJoin(a, b);
    Mul(dst, tmp, y, n, Ones(a) * Pow2(b), Ones(b));
  }

  // t0 = z^11 and t1 = z^31
  method FirstPowers(t0: array<int32>, t1: array<int32>, t2: array<int32>, z: array<int32>, ghost n: int)
    requires t0.Length == t1.Length == t2.Length == z.Length == 10
    requires t0 != t1 && t1 != t2 && t0 != t2 && z != t0 && z != t1 && Raised(z[..], n, 1)
    modifies t0, t1, t2
    ensures Raised(t0[..], n, 11) && Raised(t1[..], n, 31)
  {
    hide Raised;
    SmallPowers();
    Square(t0, z, n, 1);
    Squares(t1, t0, 2, n, 2);
    Mul(t1, z, t1, n, 1, 8);
    Mul(t0, t0, t1, n, 2, 9);
    Square(t2, t0, n, 11);
    Mul(t1, t1, t2, n, 9, 22);
  }

  // out = z^(2^255 - 21), the inverse of z where z is not 0.
  method FeInvert(out: array<int32>, z: array<int32>)
    requires out.Length == z.Length == 10 && Loose(z[..])
    modifies out
    ensures Raised(out[..], FieldValue(old(z[..])), Pow2(255) - 21)
  {
    hide Raised, Pow2, Ones, FieldValue, Loose;
    var t0, t1, t2, t3 := new int32[10], new int32[10], new int32[10], new int32[10];
    ghost var n := FieldValue(z[..]);
    RaisedOnce(z[..]);
    LastExponents();
    FirstPowers(t0, t1, t2, z, n);
    Lengthen(t1, t2, t1, t1, 5, n, 5);
    Lengthen(t2, t2, t1, t1, 10, n, 10);
    Lengthen(t2, t3, t2, t2, 20, n, 20);
    Lengthen(t1, t2, t2, t1, 10, n, 40);
    Lengthen(t2, t2, t1, t1, 50, n, 50);
    Lengthen(t2, t3, t2, t2, 100, n, 100);
    Lengthen(t1, t2, t2, t1, 50, n, 200);
    Squares(t1, t1, 5, n, Ones(250));
    Mul(out, t1, t0, n, Ones(250) * Pow2(5), 11);
  }

  // out = z^(2^252 - 3)
  method FePow22523(out: array<int32>, z: array<int32>)
    requires out.Length == z.Length == 10 && Loose(z[..])
    modifies out
    ensures Raised(out[..], FieldValue(old(z[..])), Pow2(252) - 3)
  {
    hide Raised, Pow2, Ones, FieldValue, Loose;
    var t0, t1, t2 := new int32[10], new int32[10], new int32[10];
    ghost var n := FieldValue(z[..]);
    RaisedOnce(z[..]);
    LastExponents();
    Square(t0, z, n, 1);
    Squares(t1, t0, 2, n, 2);
    Mul(t1, z, t1, n, 1, 8);
    Mul(t0, t0, t1, n, 2, 9);
    Square(t0, t0, n, 11);
    Mul(t0, t1, t0, n, 9, 22);
    Lengthen(t0, t1, t0, t0, 5, n, 5);
    Lengthen(t1, t1, t0, t0, 10, n, 10);
    Lengthen(t1, t2, t1, t1, 20, n, 20);
    Lengthen(t0, t1, t1, t0, 10, n, 40);
    Lengthen(t1, t1, t0, t0, 50, n, 50);
    Lengthen(t1, t2, t1, t1, 100, n, 100);
    Lengthen(t0, t1, t1, t0, 50, n, 200);
    Squares(t0, t0, 2, n, Ones(250));
    Mul(out, t0, z, n, Ones(250) * Pow2(2), 1);
  }
}
