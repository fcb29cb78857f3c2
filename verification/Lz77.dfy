// The symbol stream that deflate hands to the Huffman coder, and what it means.
// A literal stands for one byte; a match stands for `len` bytes copied from
// `dist` bytes back, where the copy may overlap its own output (section 3.2.3
// of RFC 1951).
module Lz77 {
  import opened Basics

  datatype Symbol = Literal(b: byte) | Match(dist: nat, len: nat)

  // One byte at a time, so that a copy whose distance is smaller than its
  // length reads bytes it has just written.
  function CopyBack(out: seq<byte>, dist: nat, len: nat): (r: seq<byte>)
    requires 1 <= dist <= |out|
    ensures |r| == |out| + len
    decreases len
  {
    if len == 0 then out else CopyBack(out + [out[|out| - dist]], dist, len - 1)
  }

  // A decoder for symbol streams, going on from what is already there. None:
  // some match reaches back before the first byte of it.
  function ExpandFrom(history: seq<byte>, syms: seq<Symbol>): Option<seq<byte>> {
    if syms == [] then Some(history)
    else
      match ExpandFrom(history, syms[..|syms| - 1])
      case None => None
      case Some(out) =>
        match syms[|syms| - 1]
        case Literal(b) => Some(out + [b])
        case Match(dist, len) =>
          if 1 <= dist <= |out| then Some(CopyBack(out, dist, len)) else None
  }

  function Expand(syms: seq<Symbol>): Option<seq<byte>> {
    ExpandFrom([], syms)
  }

  lemma ExpandNext(history: seq<byte>, syms: seq<Symbol>, s: Symbol, out: seq<byte>)
    requires ExpandFrom(history, syms) == Some(out)
    ensures s.Literal? ==> ExpandFrom(history, syms + [s]) == Some(out + [s.b])
    ensures s.Match? && 1 <= s.dist <= |out| ==> ExpandFrom(history, syms + [s]) == Some(CopyBack(out, s.dist, s.len))
  {
    assert (syms + [s])[..|syms|] == syms;
  }

  lemma {:induction false} ExpandAppend(history: seq<byte>, a: seq<Symbol>, b: seq<Symbol>, middle: seq<byte>)
    requires ExpandFrom(history, a) == Some(middle)
    ensures ExpandFrom(history, a + b) == ExpandFrom(middle, b)
  {
    if b == [] {
      assert a + b == a;
    } else {
      var front := b[..|b| - 1];
      ExpandAppend(history, a, front, middle);
      assert (a + b)[..|a + b| - 1] == a + front;
    }
  }

  lemma {:induction false} CopyBackBehind(before: seq<byte>, out: seq<byte>, dist: nat, len: nat)
    requires 1 <= dist <= |out|
    ensures CopyBack(before + out, dist, len) == before + CopyBack(out, dist, len)
    decreases len
  {
    if len != 0 {
      var b := out[|out| - dist];
      assert (before + out)[|before + out| - dist] == b;
      assert (before + out) + [b] == before + (out + [b]);
      CopyBackBehind(before, out + [b], dist, len - 1);
    }
  }

  lemma {:induction false} CopyBackGrows(out: seq<byte>, dist: nat, len: nat)
    requires 1 <= dist <= |out|
    ensures out <= CopyBack(out, dist, len)
    decreases len
  {
    if len != 0 {
      CopyBackGrows(out + [out[|out| - dist]], dist, len - 1);
    }
  }

  // A decoder that remembers only the end of what came before gives the same
  // bytes, as long as no match reaches further back.
  lemma {:induction false} ExpandBehind(before: seq<byte>, history: seq<byte>, syms: seq<Symbol>)
    requires ExpandFrom(history, syms).Some?
    ensures ExpandFrom(before + history, syms) == Some(before + ExpandFrom(history, syms).value)
  {
    if syms != [] {
      var front := syms[..|syms| - 1];
      ExpandBehind(before, history, front);
      var out := ExpandFrom(history, front).value;
      match syms[|syms| - 1] {
        case Literal(b) =>
          assert (before + out) + [b] == before + (out + [b]);
        case Match(dist, len) =>
          CopyBackBehind(before, out, dist, len);
      }
    }
  }

  // The `len` bytes at `from` occur again at `at`.
  ghost predicate Repeats(data: seq<byte>, from: nat, at: nat, len: nat) {
    from < at && at + len <= |data| && data[from..from + len] == data[at..at + len]
  }

  lemma RepeatsNext(data: seq<byte>, from: nat, at: nat, len: nat)
    requires Repeats(data, from, at, len) && at + len < |data|
    requires data[from + len] == data[at + len]
    ensures Repeats(data, from, at, len + 1)
  {
    assert data[from..from + len + 1] == data[from..from + len] + [data[from + len]];
    assert data[at..at + len + 1] == data[at..at + len] + [data[at + len]];
  }

  lemma RepeatsMoreData(data: seq<byte>, longer: seq<byte>, from: nat, at: nat, len: nat)
    requires Repeats(data, from, at, len) && data <= longer
    ensures Repeats(longer, from, at, len)
  {
    assert longer[from..from + len] == data[from..from + len];
    assert longer[at..at + len] == data[at..at + len];
  }

  lemma RepeatsShorter(data: seq<byte>, from: nat, at: nat, len: nat, shorter: nat)
    requires Repeats(data, from, at, len) && shorter <= len
    ensures Repeats(data, from, at, shorter)
  {
    assert data[from..from + shorter] == data[from..from + len][..shorter];
    assert data[at..at + shorter] == data[at..at + len][..shorter];
  }

  lemma {:induction false} CopyBackReproduces(data: seq<byte>, from: nat, at: nat, len: nat)
    requires Repeats(data, from, at, len)
    ensures CopyBack(data[..at], at - from, len) == data[..at + len]
    decreases len
  {
    if len != 0 {
      assert data[from] == data[from..from + len][0] == data[at..at + len][0] == data[at];
      assert data[..at] + [data[from]] == data[..at + 1];
      assert data[from + 1..from + len] == data[from..from + len][1..];
      assert data[at + 1..at + len] == data[at..at + len][1..];
      CopyBackReproduces(data, from + 1, at + 1, len - 1);
    }
  }

  // Emitting a literal extends what the stream stands for by that byte.
  lemma ExpandLiteral(syms: seq<Symbol>, data: seq<byte>, at: nat)
    requires at < |data| && Expand(syms) == Some(data[..at])
    ensures Expand(syms + [Literal(data[at])]) == Some(data[..at + 1])
  {
    var all := syms + [Literal(data[at])];
    assert all[..|all| - 1] == syms;
    assert data[..at] + [data[at]] == data[..at + 1];
  }

  // Emitting a match that is a true repetition extends it by the whole match.
  lemma ExpandMatch(syms: seq<Symbol>, data: seq<byte>, from: nat, at: nat, len: nat)
    requires Repeats(data, from, at, len) && Expand(syms) == Some(data[..at])
    ensures Expand(syms + [Match(at - from, len)]) == Some(data[..at + len])
  {
    var all := syms + [Match(at - from, len)];
    assert all[..|all| - 1] == syms;
    CopyBackReproduces(data, from, at, len);
  }

  // ----- a symbol stream in the middle of being written

  // Every match is one that the deflate format and the window allow.
  ghost predicate Encodable(syms: seq<Symbol>, maxDist: nat) {
    forall i | 0 <= i < |syms| && syms[i].Match? :: 3 <= syms[i].len <= 258 && 1 <= syms[i].dist <= maxDist
  }

  // The symbols of finished blocks stand for input[..blockAt]; together with
  // those of the current block they stand for input[..upto]. Those from the
  // mark on stand for the input from the floor on, with no need of what came
  // before.
  ghost predicate Explains(
    sent: seq<Symbol>, current: seq<Symbol>, input: seq<byte>, blockAt: int, upto: int, maxDist: nat,
    mark: nat, floor: nat)
  {
    && 0 <= blockAt <= |input| && floor <= upto <= |input| && mark <= |sent|
    && Expand(sent) == Some(input[..blockAt])
    && Expand(sent + current) == Some(input[..upto])
    && Expand((sent + current)[mark..]) == Some(input[floor..upto])
    && Encodable(sent + current, maxDist)
  }

  lemma ExplainsMoreInput(
    sent: seq<Symbol>, current: seq<Symbol>, input: seq<byte>, longer: seq<byte>, blockAt: int, upto: int,
    maxDist: nat, mark: nat, floor: nat)
    requires Explains(sent, current, input, blockAt, upto, maxDist, mark, floor) && input <= longer
    ensures Explains(sent, current, longer, blockAt, upto, maxDist, mark, floor)
  {
    assert longer[..blockAt] == input[..blockAt];
    assert longer[..upto] == input[..upto];
    assert longer[floor..upto] == input[floor..upto];
  }

  lemma ExplainsLiteral(
    sent: seq<Symbol>, current: seq<Symbol>, input: seq<byte>, blockAt: int, upto: int, maxDist: nat,
    mark: nat, floor: nat)
    requires Explains(sent, current, input, blockAt, upto, maxDist, mark, floor) && upto < |input|
    ensures Explains(sent, current + [Literal(input[upto])], input, blockAt, upto + 1, maxDist, mark, floor)
  {
    hide Expand;
    var all := sent + current;
    ExpandLiteral(all, input, upto);
    assert sent + (current + [Literal(input[upto])]) == all + [Literal(input[upto])];
    var data := input[floor..];
    assert data[..upto - floor] == input[floor..upto] && data[..upto - floor + 1] == input[floor..upto + 1];
    ExpandLiteral(all[mark..], data, upto - floor);
    assert (all + [Literal(input[upto])])[mark..] == all[mark..] + [Literal(input[upto])];
  }

  lemma ExplainsMatch(
    sent: seq<Symbol>, current: seq<Symbol>, input: seq<byte>, blockAt: int, upto: int, maxDist: nat,
    mark: nat, floor: nat, from: nat, len: nat)
    requires Explains(sent, current, input, blockAt, upto, maxDist, mark, floor)
    requires Repeats(input, from, upto, len) && floor <= from
    requires 3 <= len <= 258 && upto - from <= maxDist
    ensures Explains(sent, current + [Match(upto - from, len)], input, blockAt, upto + len, maxDist, mark, floor)
  {
    hide Expand;
    var all, sym := sent + current, Match(upto - from, len);
    ExpandMatch(all, input, from, upto, len);
    assert sent + (current + [sym]) == all + [sym];
    var data := input[floor..];
    assert data[..upto - floor] == input[floor..upto] && data[..upto - floor + len] == input[floor..upto + len];
    assert data[from - floor..from - floor + len] == input[from..from + len];
    assert data[upto - floor..upto - floor + len] == input[upto..upto + len];
    ExpandMatch(all[mark..], data, from - floor, upto - floor, len);
    assert (all + [sym])[mark..] == all[mark..] + [sym];
  }

  lemma ExplainsFlush(
    sent: seq<Symbol>, current: seq<Symbol>, input: seq<byte>, blockAt: int, upto: int, maxDist: nat,
    mark: nat, floor: nat)
    requires Explains(sent, current, input, blockAt, upto, maxDist, mark, floor)
    ensures Explains(sent + current, [], input, upto, upto, maxDist, mark, floor)
  {
    assert (sent + current) + [] == sent + current;
  }

  // From a point where everything is sent, the history may be left behind.
  lemma ExplainsAnew(
    sent: seq<Symbol>, input: seq<byte>, blockAt: int, upto: int, maxDist: nat, mark: nat, floor: nat)
    requires Explains(sent, [], input, blockAt, upto, maxDist, mark, floor)
    ensures Explains(sent, [], input, upto, upto, maxDist, |sent|, upto)
  {
    assert sent + [] == sent;
    assert sent[|sent|..] == [] && input[upto..upto] == [];
  }
}
