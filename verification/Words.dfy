// Machine words of up to 64 bits: taking registers in and out, taking bytes off,
// and swapping bytes.
module Words {
  import opened Basics

  type word = bv64

  function Extend(r: bv32): word {
    r as bv64
  }

  function Truncate(d: word): bv32 {
    (d & 0xffff_ffff) as bv32
  }

  function WordXor(a: word, b: word): word {
    a ^ b
  }

  function WordShr8(d: word): word {
    d >> 8
  }

  function WordLow(d: word): byte {
    (d & 0xff) as bv8
  }

  // byte_swap, in words of 4 or 8 bytes
  function Swap(d: word, w: nat): word {
    if w == 8 then Swap8(d) else Swap4(d)
  }

  function Swap8(d: word): word {
    ((d & 0xff00_0000_0000_0000) >> 56)
    | ((d & 0xff_0000_0000_0000) >> 40)
    | ((d & 0xff00_0000_0000) >> 24)
    | ((d & 0xff_0000_0000) >> 8)
    | ((d & 0xff00_0000) << 8)
    | ((d & 0xff_0000) << 24)
    | ((d & 0xff00) << 40)
    | ((d & 0xff) << 56)
  }

  function Swap4(d: word): word {
    ((d & 0xff00_0000) >> 24)
    | ((d & 0xff_0000) >> 8)
    | ((d & 0xff00) << 8)
    | ((d & 0xff) << 24)
  }

  // word >> (k << 3)
  function Shifted(d: word, k: nat): word
    requires k < 8
  {
    if k == 0 then d
    else if k == 1 then d >> 8
    else if k == 2 then d >> 16
    else if k == 3 then d >> 24
    else if k == 4 then d >> 32
    else if k == 5 then d >> 40
    else if k == 6 then d >> 48
    else d >> 56
  }

  // ----- what swapping does to the operations

  lemma SwapXor(a: word, b: word, w: nat)
    ensures WordXor(Swap(a, w), Swap(b, w)) == Swap(WordXor(a, b), w)
  {
    hide WordXor, Swap8, Swap4;
    SwapXor8(a, b);
    SwapXor4(a, b);
  }

  lemma SwapXor8(a: word, b: word)
    ensures WordXor(Swap8(a), Swap8(b)) == Swap8(WordXor(a, b))
  {
  }

  lemma SwapXor4(a: word, b: word)
    ensures WordXor(Swap4(a), Swap4(b)) == Swap4(WordXor(a, b))
  {
  }

  // data << 8, in a word of w bytes
  function Up8(d: word, w: nat): word {
    if w == 8 then UpIn8(d) else UpIn4(d)
  }

  function UpIn8(d: word): word {
    d << 8
  }

  function UpIn4(d: word): word {
    (d << 8) & 0xffff_ffff
  }

  lemma SwapUp(d: word, w: nat)
    requires w == 8 || (w == 4 && d <= 0xffff_ffff)
    ensures Up8(Swap(d, w), w) == Swap(WordShr8(d), w)
  {
    hide WordShr8, Swap8, Swap4, UpIn8, UpIn4;
    if w == 8 {
      SwapUp8(d);
    } else {
      SwapUp4(d);
    }
  }

  lemma SwapUp8(d: word)
    ensures UpIn8(Swap8(d)) == Swap8(WordShr8(d))
  {
    hide Swap8;
    ShiftSwapped8(d);
  }

  lemma SwapUp4(d: word)
    requires d <= 0xffff_ffff
    ensures UpIn4(Swap4(d)) == Swap4(WordShr8(d))
  {
    hide Swap4;
    ShiftSwapped4(d);
  }

  lemma ShiftSwapped8(d: word)
    ensures Swap8(d) << 8 == Swap8(d >> 8)
  {
  }

  lemma ShiftSwapped4(d: word)
    requires d <= 0xffff_ffff
    ensures (Swap4(d) << 8) & 0xffff_ffff == Swap4(d >> 8)
  {
  }

  // The bytes come in the other order.
  lemma SwapByte(d: word, k: nat, w: nat)
    requires (w == 8 || (w == 4 && d <= 0xffff_ffff)) && k < w
    ensures WordLow(Shifted(Swap(d, w), k)) == WordLow(Shifted(d, w - 1 - k))
  {
    hide WordLow, Swap8, Swap4, Shifted;
    if w == 4 {
      SwapByte4(d, k);
    } else {
      SwapByte8(d, k);
    }
  }

  lemma SwapByte4(d: word, k: nat)
    requires k < 4 && d <= 0xffff_ffff
    ensures WordLow(Shifted(Swap4(d), k)) == WordLow(Shifted(d, 3 - k))
  {
    if k == 0 {
      SwapByte40(d);
    } else if k == 1 {
      SwapByte41(d);
    } else if k == 2 {
      SwapByte42(d);
    } else {
      SwapByte43(d);
    }
  }

  lemma SwapByte40(d: word)
    ensures WordLow(Swap4(d)) == WordLow(d >> 24)
  {
  }

  lemma SwapByte41(d: word)
    ensures WordLow(Swap4(d) >> 8) == WordLow(d >> 16)
  {
  }

  lemma SwapByte42(d: word)
    ensures WordLow(Swap4(d) >> 16) == WordLow(d >> 8)
  {
  }

  lemma SwapByte43(d: word)
    ensures WordLow(Swap4(d) >> 24) == WordLow(d)
  {
  }

  lemma SwapByte8(d: word, k: nat)
    requires k < 8
    ensures WordLow(Shifted(Swap8(d), k)) == WordLow(Shifted(d, 7 - k))
  {
    if k == 0 {
    } else if k == 1 {
    } else if k == 2 {
    } else if k == 3 {
    } else if k == 4 {
    } else if k == 5 {
    } else if k == 6 {
    } else {
    }
  }

  // byte_swap of a register that has been swapped.
  lemma SwapBack(r: bv32, w: nat)
    ensures Truncate(Swap(Swap(Extend(r), w), w)) == r
  {
    hide Swap8, Swap4, Extend, Truncate;
    SwapBack8(r);
    SwapBack4(r);
  }

  lemma SwapBack8(r: bv32)
    ensures Truncate(Swap8(Swap8(Extend(r)))) == r
  {
  }

  lemma SwapBack4(r: bv32)
    ensures Truncate(Swap4(Swap4(Extend(r)))) == r
  {
  }
}
