// What the Huffman coder is given: blocks of symbols, one of which may be the
// last of the stream, and the empty blocks that mark a flush.
module DeflateBlocks {
  import opened Lz77

  datatype Given = Block(syms: seq<Symbol>, last: bool) | EmptyStored | Align

  function SymbolsOf(g: Given): seq<Symbol> {
    if g.Block? then g.syms else []
  }

  function SymbolsIn(given: seq<Given>): seq<Symbol> {
    if given == [] then [] else SymbolsIn(given[..|given| - 1]) + SymbolsOf(given[|given| - 1])
  }

  ghost predicate Last(g: Given) {
    g.Block? && g.last
  }

  ghost predicate NoneLast(given: seq<Given>) {
    forall i | 0 <= i < |given| :: !Last(given[i])
  }

  // The stream goes on: these are the symbols sent and no block is the last.
  ghost predicate Open(given: seq<Given>, sent: seq<Symbol>) {
    SymbolsIn(given) == sent && NoneLast(given)
  }

  // The stream is over: the final block, and no other, is the last.
  ghost predicate Closed(given: seq<Given>, sent: seq<Symbol>) {
    && given != [] && SymbolsIn(given) == sent
    && Last(given[|given| - 1]) && NoneLast(given[..|given| - 1])
  }

  lemma GiveNext(given: seq<Given>, sent: seq<Symbol>, g: Given)
    requires Open(given, sent)
    ensures if Last(g) then Closed(given + [g], sent + SymbolsOf(g)) else Open(given + [g], sent + SymbolsOf(g))
  {
    assert (given + [g])[..|given|] == given;
  }

  // What was added is blocks with as many symbols as the buffer holds.
  ghost predicate FullBlocks(before: seq<Given>, after: seq<Given>, size: nat) {
    before <= after && forall i | |before| <= i < |after| :: after[i].Block? && |after[i].syms| == size
  }

  // The same but for the last block, which may be shorter.
  ghost predicate CutBlocks(before: seq<Given>, after: seq<Given>, size: nat) {
    FullBlocks(before, after, size) || (before < after && FullBlocks(before, after[..|after| - 1], size))
  }

  lemma NoBlocks(given: seq<Given>, size: nat)
    ensures FullBlocks(given, given, size)
  {
  }

  lemma OneFullBlock(given: seq<Given>, g: Given, size: nat)
    requires g.Block? && |g.syms| == size
    ensures FullBlocks(given, given + [g], size)
  {
  }

  lemma MoreBlocks(before: seq<Given>, middle: seq<Given>, after: seq<Given>, size: nat)
    requires FullBlocks(before, middle, size) && FullBlocks(middle, after, size)
    ensures FullBlocks(before, after, size)
  {
    forall i | |before| <= i < |after| ensures after[i].Block? && |after[i].syms| == size {
      if i < |middle| {
        assert after[i] == middle[i];
      }
    }
  }

  lemma Unfinished(before: seq<Given>, after: seq<Given>, size: nat)
    requires FullBlocks(before, after, size)
    ensures CutBlocks(before, after, size)
  {
  }

  lemma Finished(before: seq<Given>, middle: seq<Given>, after: seq<Given>, size: nat)
    requires FullBlocks(before, middle, size)
    requires after == middle || (|after| == |middle| + 1 && middle < after)
    ensures CutBlocks(before, after, size)
  {
    if |after| == |middle| + 1 {
      assert after[..|after| - 1] == middle;
    }
  }

  // A decoder that stops after the last block has all symbols, and one that goes
  // on to the end of an open stream waits for more.
  function UntilLast(given: seq<Given>): (r: (seq<Symbol>, bool)) {
    if given == [] then ([], false)
    else if given[0].Block? && given[0].last then (given[0].syms, true)
    else
      var (syms, done) := UntilLast(given[1..]);
      (SymbolsOf(given[0]) + syms, done)
  }

  lemma Associates(a: seq<Symbol>, b: seq<Symbol>, c: seq<Symbol>)
    ensures (a + b) + c == a + (b + c)
  {
  }

  lemma {:induction false} SymbolsConcat(a: seq<Given>, b: seq<Given>)
    ensures SymbolsIn(a + b) == SymbolsIn(a) + SymbolsIn(b)
  {
    hide SymbolsOf;
    if b == [] {
      assert a + b == a;
    } else {
      var n := |b| - 1;
      assert (a + b)[..|a| + n] == a + b[..n];
      SymbolsConcat(a, b[..n]);
      Associates(SymbolsIn(a), SymbolsIn(b[..n]), SymbolsOf(b[n]));
    }
  }

  lemma SymbolsOfOne(g: Given)
    ensures SymbolsIn([g]) == SymbolsOf(g)
  {
    assert [g][..0] == [];
  }

  lemma CutAround(given: seq<Given>, i: nat)
    requires i < |given|
    ensures given == given[..i] + ([given[i]] + given[i + 1..])
  {
  }

  // The symbols before a block, in it and after it.
  lemma SymbolsAround(given: seq<Given>, i: nat)
    requires i < |given|
    ensures SymbolsIn(given) == (SymbolsIn(given[..i]) + SymbolsOf(given[i])) + SymbolsIn(given[i + 1..])
  {
    hide SymbolsIn, SymbolsOf;
    var front, one, back := given[..i], [given[i]], given[i + 1..];
    CutAround(given, i);
    SymbolsConcat(front, one + back);
    SymbolsConcat(one, back);
    SymbolsOfOne(given[i]);
    Associates(SymbolsIn(given[..i]), SymbolsOf(given[i]), SymbolsIn(given[i + 1..]));
  }

  lemma {:induction false} ReadUntilLast(given: seq<Given>, sent: seq<Symbol>)
    ensures Open(given, sent) ==> UntilLast(given) == (sent, false)
    ensures Closed(given, sent) ==> UntilLast(given) == (sent, true)
    decreases |given|
  {
    if given != [] {
      var rest := given[1..];
      assert given == [given[0]] + rest;
      SymbolsConcat([given[0]], rest);
      SymbolsOfOne(given[0]);
      if Open(given, sent) {
        ReadUntilLast(rest, SymbolsIn(rest));
      } else if Closed(given, sent) && rest == [] {
        assert given[..0] == [] && [] + given[0].syms == given[0].syms;
      } else if Closed(given, sent) {
        assert rest[..|rest| - 1] == given[..|given| - 1][1..];
        assert !Last(given[..|given| - 1][0]);
        ReadUntilLast(rest, SymbolsIn(rest));
      }
    }
  }
}
