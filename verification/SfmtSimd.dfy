// The same two fills in SSE2, on registers: the same sequence.
module SfmtSimd {
  import opened SfmtRecursion
  import opened SfmtFill

  // The register that holds word k of the sequence.
  ghost function Register(s0: seq<W128>, k: nat): bv128
    requires |s0| == 156
  {
    Join(Stream(s0, k))
  }

  lemma RegisterNext(s0: seq<W128>, k: nat)
    requires |s0| == 156 && 156 <= k
    ensures Register(s0, k) ==
      MmRecursion(Register(s0, k - 156), Register(s0, k - 34), Register(s0, k - 2), Register(s0, k - 1))
  {
    hide Recursion, MmRecursion, Join, Stream;
    StreamNext(s0, k);
    RecursionsAgree(Stream(s0, k - 156), Stream(s0, k - 34), Stream(s0, k - 2), Stream(s0, k - 1));
  }

  ghost predicate InRegisters(mem: array<bv128>, n: nat, s0: seq<W128>, m: nat)
    requires |s0| == 156
    reads mem
  {
    n <= mem.Length && forall j | 0 <= j < n :: mem[j] == Register(s0, m + j)
  }

  method GenRandAll(pstate: array<bv128>, ghost s0: seq<W128>, ghost m: nat)
    requires |s0| == 156 && pstate.Length == 156 && InRegisters(pstate, 156, s0, m)
    modifies pstate
    ensures InRegisters(pstate, 156, s0, m + 156)
  {
    hide MmRecursion, Register;
    var r1, r2 := pstate[154], pstate[155];
    var i := 0;
    while i < 34
      invariant 0 <= i <= 34
      invariant forall j | 0 <= j < 156 :: pstate[j] == Register(s0, if j < i then m + 156 + j else m + j)
      invariant r1 == Register(s0, m + 154 + i) && r2 == Register(s0, m + 155 + i)
    {
      RegisterNext(s0, m + 156 + i);
      pstate[i] := MmRecursion(pstate[i], pstate[i + 122], r1, r2);
      r1 := r2;
      r2 := pstate[i];
      i := i + 1;
    }
    while i < 156
      invariant 34 <= i <= 156
      invariant forall j | 0 <= j < 156 :: pstate[j] == Register(s0, if j < i then m + 156 + j else m + j)
      invariant r1 == Register(s0, m + 154 + i) && r2 == Register(s0, m + 155 + i)
    {
      RegisterNext(s0, m + 156 + i);
      pstate[i] := MmRecursion(pstate[i], pstate[i - 34], r1, r2);
      r1 := r2;
      r2 := pstate[i];
      i := i + 1;
    }
  }

  // The first 156 words of an array, from the words in the state.
  method FillFromState(pstate: array<bv128>, arr: array<bv128>, ghost s0: seq<W128>, ghost m: nat)
    returns (r1: bv128, r2: bv128)
    requires |s0| == 156 && pstate.Length == 156 && InRegisters(pstate, 156, s0, m)
    requires pstate != arr && 156 <= arr.Length
    modifies arr
    ensures InRegisters(arr, 156, s0, m + 156)
    ensures r1 == Register(s0, m + 310) && r2 == Register(s0, m + 311)
  {
    hide MmRecursion, Register;
    r1, r2 := pstate[154], pstate[155];
    var i := 0;
    while i < 34
      invariant 0 <= i <= 34
      invariant InRegisters(pstate, 156, s0, m) && InRegisters(arr, i, s0, m + 156)
      invariant r1 == Register(s0, m + 154 + i) && r2 == Register(s0, m + 155 + i)
    {
      RegisterNext(s0, m + 156 + i);
      arr[i] := MmRecursion(pstate[i], pstate[i + 122], r1, r2);
      r1 := r2;
      r2 := arr[i];
      i := i + 1;
    }
    while i < 156
      invariant 34 <= i <= 156
      invariant InRegisters(pstate, 156, s0, m) && InRegisters(arr, i, s0, m + 156)
      invariant r1 == Register(s0, m + 154 + i) && r2 == Register(s0, m + 155 + i)
    {
      RegisterNext(s0, m + 156 + i);
      arr[i] := MmRecursion(pstate[i], arr[i - 34], r1, r2);
      r1 := r2;
      r2 := arr[i];
      i := i + 1;
    }
  }

  method FillNext(arr: array<bv128>, i: nat, r1: bv128, r2: bv128, ghost s0: seq<W128>, ghost m: nat)
    requires |s0| == 156 && 156 <= i < arr.Length && InRegisters(arr, i, s0, m + 156)
    requires r1 == Register(s0, m + 154 + i) && r2 == Register(s0, m + 155 + i)
    modifies arr
    ensures InRegisters(arr, i + 1, s0, m + 156)
  {
    hide MmRecursion, Register;
    RegisterNext(s0, m + 156 + i);
    arr[i] := MmRecursion(arr[i - 156], arr[i - 34], r1, r2);
  }

  method GenRandArray(pstate: array<bv128>, arr: array<bv128>, size: nat, ghost s0: seq<W128>, ghost m: nat)
    requires |s0| == 156 && pstate.Length == 156 && InRegisters(pstate, 156, s0, m)
    requires pstate != arr && 156 <= size && arr.Length == size
    modifies pstate, arr
    ensures InRegisters(arr, size, s0, m + 156)
    ensures InRegisters(pstate, 156, s0, m + size)
  {
    hide MmRecursion, Register;
    var r1, r2 := FillFromState(pstate, arr, s0, m);
    var i := 156;
    while i < size - 156
      invariant 156 <= i && (i <= size - 156 || i == 156) && InRegisters(arr, i, s0, m + 156)
      invariant r1 == Register(s0, m + 154 + i) && r2 == Register(s0, m + 155 + i)
    {
      FillNext(arr, i, r1, r2, s0, m);
      r1 := r2;
      r2 := arr[i];
      i := i + 1;
    }
    var j := 0;
    while j < 312 - size
      invariant 0 <= j && (j <= 312 - size || j == 0)
      invariant InRegisters(arr, i, s0, m + 156) && InRegisters(pstate, j, s0, m + size)
    {
      pstate[j] := arr[j + size - 156];
      j := j + 1;
    }
    while i < size
      invariant 156 <= i <= size && j == i - (size - 156)
      invariant InRegisters(arr, i, s0, m + 156) && InRegisters(pstate, j, s0, m + size)
      invariant r1 == Register(s0, m + 154 + i) && r2 == Register(s0, m + 155 + i)
    {
      FillNext(arr, i, r1, r2, s0, m);
      r1 := r2;
      r2 := arr[i];
      pstate[j] := arr[i];
      i := i + 1;
      j := j + 1;
    }
  }
}
