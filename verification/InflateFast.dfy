// inflate_fast: symbols decoded and carried out until the input or the output
// runs low, the block ends or the data is bad.
module InflateFast {
  import opened Basics
  import opened Lz77
  import opened Powers
  import opened BitStream
  import opened InflateTables
  import opened InflateState
  import opened InflateCopy

  // What the mode says about the symbols decoded, which left a history of
  // `size` bytes, and about the one after them.
  ghost predicate Outcome(s: Inflate, stream: nat, syms: seq<Symbol>, used: nat, size: nat)
    requires TableOk(s.lens) && TableOk(s.dists)
    reads s`mode
  {
    var next := At(s.lens, s.dists, stream, |syms|);
    match s.mode
    case LEN => used == Position(s.lens, s.dists, stream, |syms|)
    case TYPE => next == End && used == Position(s.lens, s.dists, stream, |syms| + 1)
    case BAD =>
      && (next == BadLength || next == BadDistance || (next.Sym? && next.s.Match? && next.s.dist > size))
      && used == Position(s.lens, s.dists, stream, |syms| + 1)
  }

  lemma NoMatches(syms: seq<Symbol>)
    requires Encodable(syms, 0)
    ensures InEffect(syms, 0) == syms
  {
  }

  // How far back a match can reach: to the end of the window, where that is also
  // the output, and otherwise as far as there are distances.
  function Reach(s: Inflate): nat {
    if s.output == s.window then s.window.Length else 32768
  }

  // Symbols with their distances as they take effect.
  function InEffect(syms: seq<Symbol>, size: nat): (r: seq<Symbol>)
    ensures |r| == |syms|
  {
    seq(|syms|, i requires 0 <= i < |syms| => OneInEffect(syms[i], size))
  }

  function OneInEffect(sym: Symbol, size: nat): Symbol {
    if sym.Match? then Match(Effective(sym.dist, size), sym.len) else sym
  }

  lemma InEffectNext(syms: seq<Symbol>, sym: Symbol, size: nat)
    ensures InEffect(syms + [sym], size) == InEffect(syms, size) + [OneInEffect(sym, size)]
  {
  }

  // Nothing is different exactly when no distance reaches beyond the window.
  lemma InEffectWithin(syms: seq<Symbol>, size: nat)
    requires 0 < size
    ensures InEffect(syms, size) == syms <==> forall i | 0 <= i < |syms| && syms[i].Match? :: syms[i].dist <= size
  {
    var r := InEffect(syms, size);
    assert forall i | 0 <= i < |syms| :: r[i] == OneInEffect(syms[i], size);
    if r == syms {
      forall i | 0 <= i < |syms| && syms[i].Match? ensures syms[i].dist <= size {
        assert r[i] == syms[i];
      }
    }
  }

  // The symbols decoded so far, and the history they leave.
  ghost predicate Decoding(s: Inflate, stream: nat, past: seq<byte>, syms: seq<Symbol>, h0: seq<byte>, h: seq<byte>)
    requires TableOk(s.lens) && TableOk(s.dists)
  {
    && StartsWith(s.lens, s.dists, stream, syms)
    && ExpandFrom(h0, InEffect(syms, Reach(s))) == Some(h)
    && Encodable(syms, 32768)
    && past <= h
  }

  lemma DecodedAt(s: Inflate, stream: nat, n: nat, d: Decoded, used: nat)
    requires LengthsOk(s.lens) && DistancesOk(s.dists)
    requires (d, used) == DecodeOne(s.lens, s.dists, High(stream, Position(s.lens, s.dists, stream, n)))
    ensures At(s.lens, s.dists, stream, n) == d
    ensures Position(s.lens, s.dists, stream, n) + used == Position(s.lens, s.dists, stream, n + 1)
    ensures d.Sym? && d.s.Match? ==> 3 <= d.s.len <= 258 && 1 <= d.s.dist <= 32768
  {
    hide TableOk, DecodeOne, High;
    SymbolBounds(s.lens, s.dists, High(stream, Position(s.lens, s.dists, stream, n)));
  }

  lemma DecodingNext(
    s: Inflate, stream: nat, past: seq<byte>, syms: seq<Symbol>, h0: seq<byte>, h: seq<byte>, sym: Symbol)
    requires LengthsOk(s.lens) && DistancesOk(s.dists)
    requires Decoding(s, stream, past, syms, h0, h) && At(s.lens, s.dists, stream, |syms|) == Sym(sym)
    requires sym.Match? ==> 3 <= sym.len <= 258 && 1 <= sym.dist <= 32768
    ensures sym.Literal? ==> Decoding(s, stream, past, syms + [sym], h0, h + [sym.b])
    ensures sym.Match? && sym.dist <= |h| ==>
      Decoding(s, stream, past, syms + [sym], h0, CopyBack(h, Effective(sym.dist, Reach(s)), sym.len))
  {
    hide At, ExpandFrom, CopyBack, Reach, InEffect;
    InEffectNext(syms, sym, Reach(s));
    ExpandNext(h0, InEffect(syms, Reach(s)), OneInEffect(sym, Reach(s)), h);
    if sym.Match? && sym.dist <= |h| {
      CopyBackGrows(h, Effective(sym.dist, Reach(s)), sym.len);
    }
  }

  ghost predicate Entry(s: Inflate, start: nat)
    reads s
  {
    && s.mode == LEN
    && 6 <= s.availIn && s.nextIn + s.availIn == |s.input|
    && 258 <= s.availOut <= start && s.nextOut + s.availOut == s.output.Length
    && start - s.availOut <= s.nextOut
    && s.bits < 8 && s.hold < Pow2(s.bits)
    && LengthsOk(s.lens) && DistancesOk(s.dists)
  }

  lemma TablesOk(s: Inflate)
    requires LengthsOk(s.lens) && DistancesOk(s.dists)
    ensures TableOk(s.lens) && TableOk(s.dists)
  {
  }

  // *out++ = (unsigned char)(here->val)
  method PutLiteral(s: Inflate, beg: nat, out: nat, b: byte, ghost past: seq<byte>, ghost h: seq<byte>)
    requires Tracks(h, past, s.output, beg, out) && out < s.output.Length
    requires WindowHolds(past, s.window, s.whave, s.wnext, s.output, beg, out)
    modifies s.output
    ensures Tracks(h + [b], past, s.output, beg, out + 1)
    ensures WindowHolds(past, s.window, s.whave, s.wnext, s.output, beg, out + 1)
    ensures forall i | 0 <= i < s.output.Length && i != out :: s.output[i] == old(s.output[i])
  {
    s.output[out] := b;
  }

  // One symbol decoded and carried out.
  method Step(
    s: Inflate, beg: nat, out0: nat,
    ghost o: Origin, ghost past: seq<byte>, ghost syms0: seq<Symbol>, ghost used0: nat, ghost h0: seq<byte>,
    ghost h: seq<byte>)
    returns (out: nat, ghost syms: seq<Symbol>, ghost used: nat, ghost h1: seq<byte>)
    requires LengthsOk(s.lens) && DistancesOk(s.dists) && s.mode == LEN
    requires s.Reading(o, used0) && s.nextIn + 6 <= |s.input|
    requires Tracks(h, past, s.output, beg, out0) && out0 + 258 <= s.output.Length
    requires WindowHolds(past, s.window, s.whave, s.wnext, s.output, beg, out0)
    requires o.next <= |s.input| && Decoding(s, s.StreamOf(o), past, syms0, h0, h)
    requires Outcome(s, s.StreamOf(o), syms0, used0, |h|)
    modifies s`mode, s`nextIn, s`hold, s`bits, s.output
    ensures s.Reading(o, used) && s.nextIn <= old(s.nextIn) + 6
    ensures out0 <= out <= out0 + 258 && Tracks(h1, past, s.output, beg, out)
    ensures forall i | 0 <= i < s.output.Length && !(out0 <= i < out) :: s.output[i] == old(s.output[i])
    ensures WindowHolds(past, s.window, s.whave, s.wnext, s.output, beg, out)
    ensures s.mode == LEN ==> out0 < out
    ensures Decoding(s, s.StreamOf(o), past, syms, h0, h1)
    ensures Outcome(s, s.StreamOf(o), syms, used, |h1|)
  {
    hide TableOk, LengthsOk, DistancesOk, DecodeOne, High, Stream, Pow2, WindowHolds, Decoding, Tracks, s.Reading;
    TablesOk(s);
    var d: Decoded;
    ghost var n: nat;
    d, n := s.NextSymbol(o, used0);
    ghost var stream := s.StreamOf(o);
    DecodedAt(s, stream, |syms0|, d, n);
    if d.Sym? {
      DecodingNext(s, stream, past, syms0, h0, h, d.s);
    }
    used := used0 + n;
    out, syms, h1 := out0, syms0, h;
    match d {
      case Sym(Literal(b)) =>
        syms, h1 := syms0 + [d.s], h + [b];
        TracksSize(h, past, s.output, beg, out);
        PutLiteral(s, beg, out, b, past, h);
        out := out + 1;
      case Sym(Match(dist, len)) =>
        TracksSize(h, past, s.output, beg, out);
        OutputBounds(past, s.window, s.whave, s.wnext, s.output, beg, out);
        if dist > out - beg && dist - (out - beg) > s.whave {
          s.mode := BAD;
        } else {
          syms, h1 := syms0 + [d.s], CopyBack(h, Effective(dist, Reach(s)), len);
          out := CopyMatch(s.output, s.window, s.whave, s.wnext, beg, out, dist, len, h, past);
        }
      case End =>
        s.mode := TYPE;
      case _ =>
        s.mode := BAD;
    }
  }

  // Whole bytes still in the bit buffer go back to the input.
  method ReturnUnused(s: Inflate, ghost o: Origin, ghost used: nat)
    requires s.Reading(o, used) && o.bits < 8
    modifies s`nextIn, s`hold, s`bits
    ensures s.Reading(o, used) && s.bits == old(s.bits) % 8
    ensures s.nextIn == old(s.nextIn) - old(s.bits) / 8
  {
    hide Pow2, High, Low, Stream;
    var len := s.bits / 8;
    GiveBack(o.hold, o.bits, s.input[o.next..], s.StreamOf(o), used, s.hold, s.bits, s.nextIn - o.next, len)
      by { assert s.input[o.next..][s.nextIn - o.next..] == s.input[s.nextIn..]; }
    assert s.input[o.next..][s.nextIn - o.next - len..] == s.input[s.nextIn - len..];
    s.nextIn := s.nextIn - len;
    s.bits := s.bits - len * 8;
    s.hold := Low(s.hold, s.bits);
  }

  lemma Starts(s: Inflate, start: nat, past: seq<byte>, h0: seq<byte>, beg: nat)
    requires Entry(s, start) && Tracks(h0, past, s.output, beg, s.nextOut)
    ensures var o := Origin(s.hold, s.bits, s.nextIn);
      && s.Reading(o, 0)
      && Decoding(s, s.StreamOf(o), past, [], h0, h0)
      && Outcome(s, s.StreamOf(o), [], 0, |h0|)
  {
    hide Stream, TableOk, Pow2;
    HighZero(s.StreamOf(Origin(s.hold, s.bits, s.nextIn)));
  }

  lemma HighZero(v: nat)
    ensures High(v, 0) == v
  {
  }

  lemma DecodingMeans(s: Inflate, stream: nat, past: seq<byte>, syms: seq<Symbol>, h0: seq<byte>, h: seq<byte>)
    requires TableOk(s.lens) && TableOk(s.dists)
    requires Decoding(s, stream, past, syms, h0, h)
    ensures StartsWith(s.lens, s.dists, stream, syms) && Encodable(syms, 32768)
    ensures ExpandFrom(h0, InEffect(syms, Reach(s))) == Some(h)
    ensures Encodable(syms, Reach(s)) ==> ExpandFrom(h0, syms) == Some(h)
    ensures s.output != s.window ==> ExpandFrom(h0, syms) == Some(h)
  {
    hide StartsWith, ExpandFrom, InEffect;
    if Reach(s) > 0 {
      InEffectWithin(syms, Reach(s));
    } else if Encodable(syms, 0) {
      NoMatches(syms);
    }
  }

  // Everything a call promises: the symbols it read are those of the block, one
  // at a time; the output is what they expand to; and exactly the bits they
  // have are gone from the stream.
  method InflateFast(s: Inflate, start: nat, ghost past: seq<byte>, ghost h0: seq<byte>)
    returns (ghost syms: seq<Symbol>, ghost used: nat, ghost h: seq<byte>)
    requires Entry(s, start)
    requires WindowHolds(
      past, s.window, s.whave, s.wnext, s.output, s.nextOut - (start - s.availOut), s.nextOut)
    requires Tracks(h0, past, s.output, s.nextOut - (start - s.availOut), s.nextOut)
    modifies s`mode, s`nextIn, s`availIn, s`hold, s`bits, s`nextOut, s`availOut, s.output
    ensures ghost var stream := Stream(old(s.hold), old(s.bits), s.input[old(s.nextIn)..]);
      && TableOk(s.lens) && TableOk(s.dists)
      && StartsWith(s.lens, s.dists, stream, syms)
      && Outcome(s, stream, syms, used, |h|)
      && s.nextIn <= |s.input|
      && Stream(s.hold, s.bits, s.input[s.nextIn..]) == High(stream, used)
    ensures ExpandFrom(h0, InEffect(syms, Reach(s))) == Some(h) && Encodable(syms, 32768)
    ensures Encodable(syms, Reach(s)) ==> ExpandFrom(h0, syms) == Some(h)
    ensures s.output != s.window ==> ExpandFrom(h0, syms) == Some(h)
    ensures Tracks(h, past, s.output, old(s.nextOut - (start - s.availOut)), s.nextOut)
    ensures old(s.nextOut) <= s.nextOut
    ensures forall i | 0 <= i < s.output.Length && !(old(s.nextOut) <= i < s.nextOut) ::
      s.output[i] == old(s.output[i])
    ensures s.bits < 8 && s.hold < Pow2(s.bits) && old(s.nextIn) <= s.nextIn
    ensures used + s.bits == old(s.bits) + 8 * (s.nextIn - old(s.nextIn))
    ensures s.nextIn + s.availIn == |s.input| && s.nextOut + s.availOut == s.output.Length
    ensures s.mode == LEN ==> s.availOut < 258 || 8 * s.availIn + s.bits <= 70
  {
    hide TableOk, LengthsOk, DistancesOk, High, Stream, Pow2, WindowHolds, Decoding, Tracks, Outcome, s.Reading,
      StartsWith, ExpandFrom, Encodable, InEffect, Reach;
    var last := s.nextIn + (s.availIn - 5);
    var out := s.nextOut;
    var beg := out - (start - s.availOut);
    var end := out + (s.availOut - 257);
    ghost var o := Origin(s.hold, s.bits, s.nextIn);
    ghost var stream := s.StreamOf(o);
    syms, used, h := [], 0, h0;
    TablesOk(s);
    Starts(s, start, past, h0, beg);
    while true
      invariant s.mode == LEN && s.Reading(o, used) && s.nextIn < last && out < end
      invariant Decoding(s, stream, past, syms, h0, h) && Outcome(s, stream, syms, used, |h|)
      invariant Tracks(h, past, s.output, beg, out) && old(s.nextOut) <= out
      invariant WindowHolds(past, s.window, s.whave, s.wnext, s.output, beg, out)
      invariant forall i | 0 <= i < s.output.Length && !(old(s.nextOut) <= i < out) :: s.output[i] == old(s.output[i])
      decreases end - out
    {
      out, syms, used, h := Step(s, beg, out, o, past, syms, used, h0, h);
      if s.mode != LEN || !(s.nextIn < last && out < end) {
        break;
      }
    }
    DecodingMeans(s, stream, past, syms, h0, h);
    s.StreamDefined(o, used);
    ReturnUnused(s, o, used);
    s.StreamDefined(o, used);
    s.StreamLeft(o, used);
    s.availIn := if s.nextIn < last then 5 + (last - s.nextIn) else 5 - (s.nextIn - last);
    s.availOut := if out < end then 257 + (end - out) else 257 - (out - end);
    s.nextOut := out;
  }
}
