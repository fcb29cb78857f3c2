// The generator as its callers see it: one word or two at a time, or many at
// once, always the same sequence, and a state that never has a short period
// for want of one bit.
module Sfmt {
  import opened SfmtRecursion
  import opened SfmtFill
  import opened SfmtPeriod
  import Simd = SfmtSimd

  // The n-th 32-bit word of the sequence.
  ghost function Output(s0: seq<W128>, n: nat): bv32
    requires |s0| == 156
  {
    WordOf(Stream(s0, n / 4), n % 4)
  }

  function Scrambled(x: bv32): bv32 {
    1812433253 * (x ^ (x >> 30))
  }

  function Offset(i: nat): bv32 {
    (i % 0x1_0000_0000) as bv32
  }

  // One step of the congruential generator that fills the state from a seed.
  function Congruential(x: bv32, i: nat): bv32 {
    Scrambled(x) + Offset(i)
  }

  ghost function Seeded(seed: bv32, i: nat): bv32 {
    if i == 0 then seed else Congruential(Seeded(seed, i - 1), i)
  }

  ghost function SeededWords(seed: bv32, n: nat): (words: seq<bv32>)
    ensures |words| == n && forall i | 0 <= i < n :: words[i] == Seeded(seed, i)
  {
    seq(n, i requires 0 <= i => Seeded(seed, i))
  }

  // The words of a state, as 32-bit words.
  ghost function WordsOf(s0: seq<W128>): (words: seq<bv32>)
    requires |s0| == 156
    ensures |words| == 624
  {
    seq(624, n requires 0 <= n < 624 => WordOf(s0[n / 4], n % 4))
  }

  ghost function StateOf(mem: array<bv32>): (s0: seq<W128>)
    requires mem.Length == 624
    reads mem
    ensures |s0| == 156 && Holds(mem, 156, s0, 0)
  {
    seq(156, j requires 0 <= j < 156 reads mem => At(mem, j))
  }

  lemma WordsHeld(mem: array<bv32>, s0: seq<W128>)
    requires |s0| == 156 && mem.Length == 624 && Holds(mem, 156, s0, 0)
    ensures mem[..] == WordsOf(s0)
  {
    forall n | 0 <= n < 624 ensures mem[n] == WordsOf(s0)[n] {
      assert At(mem, n / 4) == s0[n / 4];
      assert n == 4 * (n / 4) + n % 4;
    }
  }

  // The state that a seed makes: what the recurrence fills in, or if that does
  // not have the full period, the same with its lowest bit flipped.
  ghost function Certain(words: seq<bv32>): seq<bv32>
    requires |words| == 624
  {
    if Certified(words, PARITY) then words else words[0 := Xor(words[0], 1)]
  }

  ghost predicate SeededState(seed: bv32, words: seq<bv32>)
    requires |words| == 624
  {
    Certified(words, PARITY) && words == Certain(SeededWords(seed, 624))
  }

  lemma FirstPeriodBit(i: nat, w: bv32)
    requires LowestBit(PARITY, i, w)
    ensures i == 0 && w == 1
  {
    hide ClearBelow;
    assert PARITY[0] == 1;
    MeetsOne(w);
  }

  lemma CertainOf(filled: seq<bv32>, words: seq<bv32>)
    requires |filled| == 624 == |words|
    requires Certified(filled, PARITY) ==> words == filled
    requires !Certified(filled, PARITY) ==>
      exists i: nat, w | LowestBit(PARITY, i, w) :: words == filled[i := Xor(filled[i], w)]
    ensures words == Certain(filled)
  {
    hide Certified, OneBit, ClearBelow, And, Xor;
    if !Certified(filled, PARITY) {
      var i: nat, w :| LowestBit(PARITY, i, w) && words == filled[i := Xor(filled[i], w)];
      FirstPeriodBit(i, w);
    }
  }

  lemma MeetsOne(w: bv32)
    requires OneBit(w) && And(w, 1) != 0
    ensures w == 1
  {
  }

  class Generator {
    const state: array<bv32>
    var idx: nat
    // the state it began with, and which words of the sequence it holds now
    ghost var s0: seq<W128>
    ghost var from: nat

    constructor (seed: bv32)
      ensures Valid() && fresh(state) && Place() == 624 && from == 0
      ensures state[..] == WordsOf(s0) && SeededState(seed, state[..])
    {
      state := new bv32[624];
      idx, from := 0, 0;
      s0 := [];
      new;
      InitGenRand(seed);
    }

    // sfmt_init_gen_rand
    method InitGenRand(seed: bv32)
      requires state.Length == 624
      modifies this, state
      ensures Valid() && idx == 624 && from == 0
      ensures state[..] == WordsOf(s0) && SeededState(seed, state[..])
    {
      hide Congruential, Certified, LowestBit, Xor;
      state[0] := seed;
      var i := 1;
      while i < 624
        invariant 1 <= i <= 624 && forall j | 0 <= j < i :: state[j] == Seeded(seed, j)
      {
        state[i] := Congruential(state[i - 1], i);
        i := i + 1;
      }
      idx := 624;
      assert state[..] == SeededWords(seed, 624);
      assert PARITY[0] != 0;
      PeriodCertification(state, PARITY);
      CertainOf(SeededWords(seed, 624), state[..]);
      s0, from := StateOf(state), 0;
      WordsHeld(state, s0);
    }

    ghost predicate Valid()
      reads this, state
    {
      |s0| == 156 && state.Length == 624 && idx <= 624 && Holds(state, 156, s0, from)
    }

    // The place in the sequence of the word that is drawn next.
    ghost function Place(): nat
      reads this
    {
      4 * from + idx
    }

    // psfmt32[idx]
    lemma WordHeld(n: nat)
      requires Valid() && n < 624
      ensures state[n] == Output(s0, 4 * from + n)
    {
      hide Stream;
      assert At(state, n / 4) == Stream(s0, from + n / 4);
      assert (4 * from + n) / 4 == from + n / 4 && (4 * from + n) % 4 == n % 4;
      assert n == 4 * (n / 4) + n % 4;
    }

    method GenrandUint32() returns (r: bv32)
      requires Valid()
      modifies `idx, `from, state
      ensures Valid() && s0 == old(s0)
      ensures r == Output(s0, old(Place())) && Place() == old(Place()) + 1
    {
      hide Output, Holds;
      if idx >= 624 {
        GenRandAll(state, s0, from);
        from := from + 156;
        idx := 0;
      }
      WordHeld(idx);
      r := state[idx];
      idx := idx + 1;
    }

    // The two words as one little-endian 64-bit word.
    method GenrandUint64() returns (r: bv64)
      requires Valid() && idx % 2 == 0
      modifies `idx, `from, state
      ensures Valid() && s0 == old(s0) && idx % 2 == 0
      ensures r == Pair(Output(s0, old(Place()) + 1), Output(s0, old(Place()))) && Place() == old(Place()) + 2
    {
      hide Output, Holds, Pair;
      if idx >= 624 {
        GenRandAll(state, s0, from);
        from := from + 156;
        idx := 0;
      }
      WordHeld(idx);
      WordHeld(idx + 1);
      r := Pair(state[idx + 1], state[idx]);
      idx := idx + 2;
    }

    // As many words as the array has, all at once.
    method FillArray32(arr: array<bv32>, size: nat)
      requires Valid() && idx == 624 && arr != state
      requires size == arr.Length && size % 4 == 0 && 624 <= size
      modifies `idx, `from, state, arr
      ensures Valid() && s0 == old(s0) && idx == 624
      ensures forall n | 0 <= n < size :: arr[n] == Output(s0, old(Place()) + n)
      ensures Place() == old(Place()) + size
    {
      hide Output, Holds, Filled;
      GenRandArray(state, arr, size / 4, s0, from);
      forall n | 0 <= n < size ensures arr[n] == Output(s0, 4 * from + 624 + n) {
        FilledWord(arr, size / 4, s0, from, n);
      }
      from := from + size / 4;
      idx := 624;
    }
  }

  lemma FilledWord(arr: array<bv32>, size: nat, s0: seq<W128>, m: nat, n: nat)
    requires |s0| == 156 && Filled(arr, size, s0, m) && n < 4 * size
    ensures n < arr.Length && arr[n] == Output(s0, 4 * m + 624 + n)
  {
    hide Stream;
    assert At(arr, n / 4) == Stream(s0, m + 156 + n / 4);
    assert (4 * m + 624 + n) / 4 == m + 156 + n / 4 && (4 * m + 624 + n) % 4 == n % 4;
    assert n == 4 * (n / 4) + n % 4;
  }

  // The same memory as registers.
  method Registers(state: array<bv32>, ghost s0: seq<W128>) returns (pstate: array<bv128>)
    requires |s0| == 156 && state.Length == 624 && Holds(state, 156, s0, 0)
    ensures fresh(pstate) && pstate.Length == 156 && Simd.InRegisters(pstate, 156, s0, 0)
  {
    hide Stream, Join;
    pstate := new bv128[156];
    var j := 0;
    while j < 156
      invariant 0 <= j <= 156 && forall k | 0 <= k < j :: pstate[k] == Simd.Register(s0, k)
    {
      pstate[j] := Join(At(state, j));
      j := j + 1;
    }
  }

  // What sfmt_init_gen_rand leaves there.
  method SeededRegisters(seed: bv32) returns (pstate: array<bv128>, ghost s0: seq<W128>)
    ensures |s0| == 156 && fresh(pstate) && pstate.Length == 156 && Simd.InRegisters(pstate, 156, s0, 0)
    ensures SeededState(seed, WordsOf(s0))
  {
    hide SeededState, WordsOf, Stream, Simd.Register;
    var g := new Generator(seed);
    s0 := g.s0;
    AllHeld(g);
    pstate := Registers(g.state, s0);
  }

  lemma AllHeld(g: Generator)
    requires g.Valid() && g.Place() == 624 && g.from == 0
    ensures Holds(g.state, 156, g.s0, 0)
  {
  }

  // The same generator where the state is registers: its words are the lanes.
  class SimdGenerator {
    const pstate: array<bv128>
    var idx: nat
    ghost var s0: seq<W128>
    ghost var from: nat

    // The state that sfmt_init_gen_rand leaves, in registers.
    constructor (seed: bv32)
      ensures Valid() && fresh(pstate) && Place() == 624 && SeededState(seed, WordsOf(s0))
    {
      hide SeededState, WordsOf, Simd.Register;
      var registers, words := SeededRegisters(seed);
      pstate, idx := registers, 624;
      s0, from := words, 0;
    }

    ghost predicate Valid()
      reads this, pstate
    {
      |s0| == 156 && pstate.Length == 156 && idx <= 624 && Simd.InRegisters(pstate, 156, s0, from)
    }

    ghost function Place(): nat
      reads this
    {
      4 * from + idx
    }

    method GenrandUint32() returns (r: bv32)
      requires Valid()
      modifies `idx, `from, pstate
      ensures Valid() && s0 == old(s0)
      ensures r == Output(s0, old(Place())) && Place() == old(Place()) + 1
    {
      hide Output, Stream, Split, Join, WordOf;
      if idx >= 624 {
        Simd.GenRandAll(pstate, s0, from);
        from := from + 156;
        idx := 0;
      }
      LaneHeld(idx);
      r := WordOf(Split(pstate[idx / 4]), idx % 4);
      idx := idx + 1;
    }

    lemma LaneHeld(n: nat)
      requires Valid() && n < 624
      ensures WordOf(Split(pstate[n / 4]), n % 4) == Output(s0, 4 * from + n)
    {
      hide Stream, Split, Join;
      assert pstate[n / 4] == Simd.Register(s0, from + n / 4);
      SplitJoin(Stream(s0, from + n / 4));
      assert (4 * from + n) / 4 == from + n / 4 && (4 * from + n) % 4 == n % 4;
    }

    // As many words as the array has lanes, all at once.
    method FillArray32(arr: array<bv128>, size: nat)
      requires Valid() && idx == 624 && arr != pstate && arr.Length == size && 156 <= size
      modifies `idx, `from, pstate, arr
      ensures Valid() && s0 == old(s0) && idx == 624
      ensures forall n | 0 <= n < 4 * size :: WordOf(Split(arr[n / 4]), n % 4) == Output(s0, old(Place()) + n)
      ensures Place() == old(Place()) + 4 * size
    {
      hide Output, Stream, Split, Join, WordOf;
      Simd.GenRandArray(pstate, arr, size, s0, from);
      forall n | 0 <= n < 4 * size ensures WordOf(Split(arr[n / 4]), n % 4) == Output(s0, 4 * from + 624 + n) {
        FilledLane(arr, size, s0, from, n);
      }
      from := from + size;
      idx := 624;
    }
  }

  lemma FilledLane(arr: array<bv128>, size: nat, s0: seq<W128>, m: nat, n: nat)
    requires |s0| == 156 && Simd.InRegisters(arr, size, s0, m + 156) && n < 4 * size
    ensures n / 4 < arr.Length && WordOf(Split(arr[n / 4]), n % 4) == Output(s0, 4 * m + 624 + n)
  {
    hide Stream, Split, Join;
    assert arr[n / 4] == Simd.Register(s0, m + 156 + n / 4);
    SplitJoin(Stream(s0, m + 156 + n / 4));
    assert (4 * m + 624 + n) / 4 == m + 156 + n / 4 && (4 * m + 624 + n) % 4 == n % 4;
  }
}
