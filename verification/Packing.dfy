// Numbers put together from digits of some width each, and the bytes of them:
// a byte lies inside one digit or across two.
module Packing {
  import opened Powers

  lemma HighAdds(d: nat, next: nat, r: nat, width: nat)
    requires r <= width
    ensures High(d + Pow2(width) * next, r) == High(d, r) + Pow2(width - r) * next
  {
    hide Pow2;
    Pow2Adds(r, width - r);
    MulGroups(Pow2(r), Pow2(width - r), next);
    MulSpreads(Pow2(r), High(d, r), Pow2(width - r) * next);
    DivSplits(d, Pow2(r), High(d, r), d % Pow2(r));
    DivisionIs(d + Pow2(width) * next, Pow2(r), High(d, r) + Pow2(width - r) * next, d % Pow2(r));
  }

  lemma LowAdds(x: nat, y: nat, n: nat)
    ensures 0 <= Pow2(n) * y && Low(x + Pow2(n) * y, n) == Low(x, n)
  {
    hide Pow2;
    DivSplits(x, Pow2(n), x / Pow2(n), x % Pow2(n));
    MulSpreads(Pow2(n), x / Pow2(n), y);
    DivisionIs(x + Pow2(n) * y, Pow2(n), x / Pow2(n) + y, x % Pow2(n));
  }

  // What is above a digit.
  lemma AboveDigit(d: nat, next: nat, width: nat)
    requires d < Pow2(width)
    ensures High(d + Pow2(width) * next, width) == next
  {
    hide Pow2;
    DivisionIs(d + Pow2(width) * next, Pow2(width), next, d);
  }

  lemma ByteInside(d: nat, next: nat, r: nat, width: nat)
    requires r + 8 <= width
    ensures Low(High(d + Pow2(width) * next, r), 8) == Low(High(d, r), 8)
  {
    hide Pow2, Low, High;
    HighAdds(d, next, r, width);
    Pow2Adds(8, width - r - 8);
    MulGroups(Pow2(8), Pow2(width - r - 8), next);
    LowAdds(High(d, r), Pow2(width - r - 8) * next, 8);
  }

  lemma ByteAcross(d: nat, next: nat, rest: nat, r: nat, width: nat, width2: nat)
    requires r <= width && width - r <= 8 <= width - r + width2
    ensures Low(High(d + Pow2(width) * (next + Pow2(width2) * rest), r), 8) ==
      Low(High(d, r) + next * Pow2(width - r), 8)
  {
    hide Pow2, Low, High;
    HighAdds(d, next + Pow2(width2) * rest, r, width);
    Pow2Adds(width - r, width2);
    Pow2Adds(8, width - r + width2 - 8);
    MulSpreads(Pow2(width - r), next, Pow2(width2) * rest);
    MulGroups(Pow2(width - r), Pow2(width2), rest);
    MulGroups(Pow2(8), Pow2(width - r + width2 - 8), rest);
    LowAdds(High(d, r) + next * Pow2(width - r), Pow2(width - r + width2 - 8) * rest, 8);
  }
}
