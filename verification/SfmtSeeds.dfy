// What a seed and a state lead to, in numbers: the first words that a seed
// fills in, and the first word of the sequence of a state.
module SfmtSeeds {
  import opened SfmtRecursion
  import opened SfmtFill
  import opened SfmtPeriod
  import opened SfmtBits
  import opened Sfmt

  lemma FirstScrambled()
    ensures Scrambled(1234) == 0xbc54_48da
  {
  }

  lemma SecondScrambled()
    ensures Scrambled(0xbc54_48db) == 0xf22b_de9d
  {
  }

  lemma ThirdScrambled()
    ensures Scrambled(0xf22b_de9f) == 0xebb4_4f8c
  {
  }

  lemma FourthScrambled()
    ensures Scrambled(0xebb4_4f8f) == 0xb989_4e3c
  {
  }

  lemma SmallOffset(i: nat, k: bv32)
    requires i < 0x1_0000_0000 && k == i as bv32
    ensures Offset(i) == k
  {
  }

  lemma Steps1234()
    ensures Congruential(1234, 1) == 0xbc54_48db && Congruential(0xbc54_48db, 2) == 0xf22b_de9f
    ensures Congruential(0xf22b_de9f, 3) == 0xebb4_4f8f && Congruential(0xebb4_4f8f, 4) == 0xb989_4e40
  {
    hide Scrambled, Offset;
    FirstScrambled();
    SecondScrambled();
    ThirdScrambled();
    FourthScrambled();
    SmallOffset(1, 1);
    SmallOffset(2, 2);
    SmallOffset(3, 3);
    SmallOffset(4, 4);
  }

  lemma Fill1234()
    ensures Seeded(1234, 0) == 1234 && Seeded(1234, 1) == 0xbc54_48db && Seeded(1234, 2) == 0xf22b_de9f
    ensures Seeded(1234, 3) == 0xebb4_4f8f && Seeded(1234, 4) == 0xb989_4e40
  {
    hide Congruential;
    Steps1234();
    SeededNext(1234, 1);
    SeededNext(1234, 2);
    SeededNext(1234, 3);
    SeededNext(1234, 4);
  }

  lemma SeededNext(seed: bv32, i: nat)
    requires 0 < i
    ensures Seeded(seed, i) == Congruential(Seeded(seed, i - 1), i)
  {
  }

  lemma Uncertain1234(words: seq<bv32>)
    requires 4 <= |words| && words[0] == 1234 && words[1] == 0xbc54_48db && words[2] == 0xf22b_de9f
    requires words[3] == 0xebb4_4f8f
    ensures !Certified(words, PARITY)
  {
    hide OddOnes;
    Selected1234(words);
    FoldedIsParity(0x0380_4684);
  }

  lemma Selected1234(words: seq<bv32>)
    requires 4 <= |words| && words[0] == 1234 && words[3] == 0xebb4_4f8f
    ensures Selected(words, PARITY, 4) == 0x0380_4684
  {
    SelectedBits(words);
  }

  // The first words that the seed 1234 leaves. What it fills in does not have
  // the full period: the lowest bit of 1234 is flipped.
  lemma Seed1234(words: seq<bv32>)
    requires |words| == 624 && SeededState(1234, words)
    ensures words[0] == 1235 && words[1] == 0xbc54_48db && words[2] == 0xf22b_de9f && words[3] == 0xebb4_4f8f
    ensures words[4] == 0xb989_4e40
  {
    hide Certified, Seeded;
    Fill1234();
    Uncertain1234(SeededWords(1234, 624));
    assert Xor(1234, 1) == 1235;
  }

  const A: W128 := W128(0x0000_04d3, 0xbc54_48db, 0xf22b_de9f, 0xebb4_4f8f)
  const B: W128 := W128(0x03a3_2799, 0x60be_8246, 0xa2d2_66ed, 0x7aa1_8536)
  const C: W128 := W128(0x15a3_8518, 0xcf65_5ce1, 0xf3e0_9994, 0x50ef_69fe)
  const D: W128 := W128(0x8827_4b07, 0xe7c9_4866, 0xc0ea_9f47, 0xb6a8_3c43)

  lemma ShiftedAC()
    ensures Lshift128(A) == W128(0x0004_d300, 0x5448_db00, 0x2bde_9fbc, 0xb44f_8ff2)
    ensures Rshift128(C) == W128(0xe115_a385, 0x94cf_655c, 0xfef3_e099, 0x0050_ef69)
  {
    UpLanes(A);
    DownLanes(C);
  }

  // The first 128 bits drawn from a state that has A, B, C and D at the places
  // 0, 122, 154 and 155.
  lemma FirstWords(s0: seq<W128>)
    requires |s0| == 156 && s0[0] == A && s0[122] == B && s0[154] == C && s0[155] == D
    ensures Output(s0, 624) == 3440181298 && Output(s0, 625) == 1564997079
    ensures Output(s0, 626) == 1510669302 && Output(s0, 627) == 2930277156
  {
    hide Lshift128, Rshift128;
    ShiftedAC();
    StreamNext(s0, 156);
  }
}
