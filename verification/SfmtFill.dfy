// Filling an array, or the state itself, with the words that come next: both
// are the same linear recurrence. Memory is an array of 32-bit words, four to a
// 128-bit word; SFMT_N is 156 and SFMT_POS1 122.
module SfmtFill {
  import opened SfmtRecursion

  // The sequence that a state s0 begins.
  ghost function Stream(s0: seq<W128>, k: nat): W128
    requires |s0| == 156
  {
    if k < 156 then s0[k]
    else Recursion(Stream(s0, k - 156), Stream(s0, k - 34), Stream(s0, k - 2), Stream(s0, k - 1))
  }

  lemma StreamNext(s0: seq<W128>, k: nat)
    requires |s0| == 156 && 156 <= k
    ensures Stream(s0, k) == Recursion(Stream(s0, k - 156), Stream(s0, k - 34), Stream(s0, k - 2), Stream(s0, k - 1))
  {
  }

  function At(mem: array<bv32>, i: nat): W128
    requires 4 * i + 4 <= mem.Length
    reads mem
  {
    W128(mem[4 * i], mem[4 * i + 1], mem[4 * i + 2], mem[4 * i + 3])
  }

  // A pointer to a 128-bit word.
  datatype Pointer = Pointer(mem: array<bv32>, at: nat)

  ghost predicate Points(p: Pointer) {
    4 * p.at + 4 <= p.mem.Length
  }

  ghost predicate Apart(p: Pointer, q: Pointer) {
    p.mem != q.mem || p.at != q.at
  }

  // One 32-bit word stored: nothing else changes.
  method StoreWord(r: Pointer, k: nat, v: bv32)
    requires Points(r) && k < 4
    modifies r.mem
    ensures At(r.mem, r.at) == WithWord(old(At(r.mem, r.at)), k, v)
    ensures forall j | 0 <= j && 4 * j + 4 <= r.mem.Length && j != r.at :: At(r.mem, j) == old(At(r.mem, j))
  {
    r.mem[4 * r.at + k] := v;
  }

  function WithWord(x: W128, k: nat, v: bv32): W128
    requires k < 4
  {
    if k == 0 then x.(u0 := v) else if k == 1 then x.(u1 := v) else if k == 2 then x.(u2 := v) else x.(u3 := v)
  }

  // *r = recursion of *a, *b, *c and *d, a word at a time; r may be a.
  method DoRecursion(r: Pointer, a: Pointer, b: Pointer, c: Pointer, d: Pointer)
    requires Points(r) && Points(a) && Points(b) && Points(c) && Points(d)
    requires Apart(r, b) && Apart(r, c) && Apart(r, d)
    modifies r.mem
    ensures At(r.mem, r.at) == Recursion(old(At(a.mem, a.at)), old(At(b.mem, b.at)), old(At(c.mem, c.at)),
      old(At(d.mem, d.at)))
    ensures forall j | 0 <= j && 4 * j + 4 <= r.mem.Length && j != r.at :: At(r.mem, j) == old(At(r.mem, j))
  {
    hide Lshift128, Rshift128, RecursionWord, At;
    var x := Lshift128(At(a.mem, a.at));
    var y := Rshift128(At(c.mem, c.at));
    StoreWord(r, 0, RecursionWord(At(a.mem, a.at).u0, x.u0, At(b.mem, b.at).u0, MSK1, y.u0, At(d.mem, d.at).u0));
    StoreWord(r, 1, RecursionWord(At(a.mem, a.at).u1, x.u1, At(b.mem, b.at).u1, MSK2, y.u1, At(d.mem, d.at).u1));
    StoreWord(r, 2, RecursionWord(At(a.mem, a.at).u2, x.u2, At(b.mem, b.at).u2, MSK3, y.u2, At(d.mem, d.at).u2));
    StoreWord(r, 3, RecursionWord(At(a.mem, a.at).u3, x.u3, At(b.mem, b.at).u3, MSK4, y.u3, At(d.mem, d.at).u3));
  }

  // The n words of mem are the sequence from place m on.
  ghost predicate Holds(mem: array<bv32>, n: nat, s0: seq<W128>, m: nat)
    requires |s0| == 156
    reads mem
  {
    4 * n <= mem.Length && forall j | 0 <= j < n :: At(mem, j) == Stream(s0, m + j)
  }

  // The words below i are already those of the next round.
  ghost predicate Renewed(state: array<bv32>, i: nat, s0: seq<W128>, m: nat)
    requires |s0| == 156
    reads state
  {
    state.Length == 624 && i <= 156
    && forall j | 0 <= j < 156 :: At(state, j) == Stream(s0, if j < i then m + 156 + j else m + j)
  }

  // sfmt_gen_rand_all: the state becomes the next 156 words.
  method GenRandAll(state: array<bv32>, ghost s0: seq<W128>, ghost m: nat)
    requires |s0| == 156 && state.Length == 624 && Holds(state, 156, s0, m)
    modifies state
    ensures Holds(state, 156, s0, m + 156)
  {
    hide Recursion, Stream, At;
    var r1, r2 := Pointer(state, 154), Pointer(state, 155);
    var i := 0;
    while i < 34
      invariant 0 <= i <= 34 && Renewed(state, i, s0, m)
      invariant r1 == Pointer(state, if i >= 2 then i - 2 else 154 + i)
      invariant r2 == Pointer(state, if i >= 1 then i - 1 else 155)
    {
      StreamNext(s0, m + 156 + i);
      DoRecursion(Pointer(state, i), Pointer(state, i), Pointer(state, i + 122), r1, r2);
      r1 := r2;
      r2 := Pointer(state, i);
      i := i + 1;
    }
    while i < 156
      invariant 34 <= i <= 156 && Renewed(state, i, s0, m)
      invariant r1 == Pointer(state, i - 2) && r2 == Pointer(state, i - 1)
    {
      StreamNext(s0, m + 156 + i);
      DoRecursion(Pointer(state, i), Pointer(state, i), Pointer(state, i - 34), r1, r2);
      r1 := r2;
      r2 := Pointer(state, i);
      i := i + 1;
    }
  }

  // The first i words of the array are those that follow the state.
  ghost predicate Filled(arr: array<bv32>, i: nat, s0: seq<W128>, m: nat)
    requires |s0| == 156
    reads arr
  {
    4 * i <= arr.Length && forall j | 0 <= j < i :: At(arr, j) == Stream(s0, m + 156 + j)
  }

  // *dst = *src
  method CopyWord(dst: Pointer, src: Pointer)
    requires Points(dst) && Points(src) && dst.mem != src.mem
    modifies dst.mem
    ensures At(dst.mem, dst.at) == At(src.mem, src.at)
    ensures forall j | 0 <= j && 4 * j + 4 <= dst.mem.Length && j != dst.at :: At(dst.mem, j) == old(At(dst.mem, j))
  {
    hide At;
    StoreWord(dst, 0, src.mem[4 * src.at]);
    StoreWord(dst, 1, src.mem[4 * src.at + 1]);
    StoreWord(dst, 2, src.mem[4 * src.at + 2]);
    StoreWord(dst, 3, src.mem[4 * src.at + 3]);
    CopyIs(dst, src);
  }

  lemma CopyIs(dst: Pointer, src: Pointer)
    requires Points(src)
    ensures At(src.mem, src.at) ==
      W128(src.mem[4 * src.at], src.mem[4 * src.at + 1], src.mem[4 * src.at + 2], src.mem[4 * src.at + 3])
  {
  }

  // The first words of an array: as long as the words they are made from are
  // still in the state.
  method FillFromState(state: array<bv32>, arr: array<bv32>, ghost s0: seq<W128>, ghost m: nat)
    returns (r1: Pointer, r2: Pointer)
    requires |s0| == 156 && state.Length == 624 && Holds(state, 156, s0, m)
    requires state != arr && 624 <= arr.Length
    modifies arr
    ensures Filled(arr, 156, s0, m) && r1 == Pointer(arr, 154) && r2 == Pointer(arr, 155)
  {
    hide Recursion, Stream, At;
    r1, r2 := Pointer(state, 154), Pointer(state, 155);
    var i := 0;
    while i < 34
      invariant 0 <= i <= 34 && Holds(state, 156, s0, m) && Filled(arr, i, s0, m)
      invariant r1 == if i >= 2 then Pointer(arr, i - 2) else Pointer(state, 154 + i)
      invariant r2 == if i >= 1 then Pointer(arr, i - 1) else Pointer(state, 155)
    {
      StreamNext(s0, m + 156 + i);
      DoRecursion(Pointer(arr, i), Pointer(state, i), Pointer(state, i + 122), r1, r2);
      r1 := r2;
      r2 := Pointer(arr, i);
      i := i + 1;
    }
    while i < 156
      invariant 34 <= i <= 156 && Holds(state, 156, s0, m) && Filled(arr, i, s0, m)
      invariant r1 == Pointer(arr, i - 2) && r2 == Pointer(arr, i - 1)
    {
      StreamNext(s0, m + 156 + i);
      DoRecursion(Pointer(arr, i), Pointer(state, i), Pointer(arr, i - 34), r1, r2);
      r1 := r2;
      r2 := Pointer(arr, i);
      i := i + 1;
    }
  }

  // A word of the array from the words before it.
  method FillNext(arr: array<bv32>, i: nat, r1: Pointer, r2: Pointer, ghost s0: seq<W128>, ghost m: nat)
    requires |s0| == 156 && 156 <= i && 4 * i + 4 <= arr.Length && Filled(arr, i, s0, m)
    requires r1 == Pointer(arr, i - 2) && r2 == Pointer(arr, i - 1)
    modifies arr
    ensures Filled(arr, i + 1, s0, m)
  {
    hide Recursion, Stream, At;
    StreamNext(s0, m + 156 + i);
    DoRecursion(Pointer(arr, i), Pointer(arr, i - 156), Pointer(arr, i - 34), r1, r2);
  }

  // gen_rand_array: the array is the next words, and the state the last 156 of
  // them.
  method GenRandArray(state: array<bv32>, arr: array<bv32>, size: nat, ghost s0: seq<W128>, ghost m: nat)
    requires |s0| == 156 && state.Length == 624 && Holds(state, 156, s0, m)
    requires state != arr && 156 <= size && arr.Length == 4 * size
    modifies state, arr
    ensures Filled(arr, size, s0, m)
    ensures Holds(state, 156, s0, m + size)
  {
    hide Recursion, Stream, At;
    var r1, r2 := FillFromState(state, arr, s0, m);
    var i := 156;
    while i < size - 156
      invariant 156 <= i && (i <= size - 156 || i == 156) && Filled(arr, i, s0, m)
      invariant r1 == Pointer(arr, i - 2) && r2 == Pointer(arr, i - 1)
    {
      FillNext(arr, i, r1, r2, s0, m);
      r1 := r2;
      r2 := Pointer(arr, i);
      i := i + 1;
    }
    var j := 0;
    while j < 312 - size
      invariant 0 <= j && (j <= 312 - size || j == 0)
      invariant Filled(arr, i, s0, m) && Holds(state, j, s0, m + size)
    {
      CopyWord(Pointer(state, j), Pointer(arr, j + size - 156));
      j := j + 1;
    }
    while i < size
      invariant 156 <= i <= size && j == i - (size - 156)
      invariant Filled(arr, i, s0, m) && Holds(state, j, s0, m + size)
      invariant r1 == Pointer(arr, i - 2) && r2 == Pointer(arr, i - 1)
    {
      FillNext(arr, i, r1, r2, s0, m);
      r1 := r2;
      r2 := Pointer(arr, i);
      CopyWord(Pointer(state, j), Pointer(arr, i));
      i := i + 1;
      j := j + 1;
    }
  }
}
