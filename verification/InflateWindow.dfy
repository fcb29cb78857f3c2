// The window between calls: what inflate keeps of its output for the matches
// of the next call, and why decoding in pieces is decoding the whole.
module InflateWindow {
  import opened Basics
  import opened Lz77
  import opened DeflateBlocks
  import opened InflateState
  import opened InflateCopy
  import opened InflateTables
  import opened InflateCodes
  import opened BitStream
  import opened Powers
  import opened InflateFast

  // The last n bytes, or all there are.
  function Last(data: seq<byte>, n: nat): (r: seq<byte>)
    ensures |r| == Min(n, |data|)
  {
    if |data| <= n then data else data[|data| - n..]
  }

  // zmemcpy
  method CopyBytes(dst: array<byte>, at: nat, src: array<byte>, from: nat, n: nat)
    requires dst != src && at + n <= dst.Length && from + n <= src.Length
    modifies dst
    ensures forall i | 0 <= i < dst.Length :: dst[i] == if at <= i < at + n then src[from + i - at] else old(dst[i])
  {
    var k := 0;
    while k < n
      invariant 0 <= k <= n
      invariant forall i | 0 <= i < dst.Length :: dst[i] == if at <= i < at + k then src[from + i - at]
        else old(dst[i])
    {
      dst[at + k] := src[from + k];
      k := k + 1;
    }
  }

  // The n bytes of output before `end` put at the window's write index, which
  // has room for them before the window's end.
  method WriteWindow(
    window: array<byte>, whave: nat, wnext: nat, output: array<byte>, end: nat, n: nat,
    ghost past: seq<byte>, ghost h: seq<byte>)
    requires output != window && n <= end && wnext + n <= window.Length
    requires HoldsWindow(past, window, whave, wnext) && Tracks(h, past, output, end - n, end)
    modifies window
    ensures var full := whave == window.Length || whave + n == window.Length;
      HoldsWindow(Last(h, window.Length), window, if full then window.Length else whave + n,
                  if wnext + n == window.Length then 0 else wnext + n)
  {
    CopyBytes(window, wnext, output, end - n, n);
    assert forall i | end - n <= i < end :: output[i] == h[|past| + i - (end - n)];
    if whave == window.Length {
      assert Last(h, window.Length) == past[n..] + h[|past|..];
    } else {
      assert Last(h, window.Length) == h;
    }
  }

  // The window overwritten from its start to its end.
  lemma Overwritten(window: array<byte>, output: array<byte>, end: nat, h: seq<byte>, past: seq<byte>, copy: nat)
    requires window.Length <= copy <= end && Tracks(h, past, output, end - copy, end)
    requires forall i | 0 <= i < window.Length :: window[i] == output[end - window.Length + i]
    ensures HoldsWindow(Last(h, window.Length), window, window.Length, 0)
  {
  }

  lemma TracksPart(h: seq<byte>, past: seq<byte>, output: array<byte>, end: nat, copy: nat, n: nat)
    requires copy <= end && Tracks(h, past, output, end - copy, end) && n <= copy
    ensures |past| + copy == |h|
    ensures Tracks(h[..|past| + n], past, output, end - copy, end - copy + n)
    ensures Tracks(h, h[..|past| + n], output, end - copy + n, end)
  {
  }

  lemma TracksLast(h: seq<byte>, past: seq<byte>, output: array<byte>, beg: nat, end: nat, n: nat)
    requires Tracks(h, past, output, beg, end)
    ensures |past| <= |h| && Tracks(Last(past, n) + h[|past|..], Last(past, n), output, beg, end)
    ensures Last(Last(past, n) + h[|past|..], n) == Last(h, n)
  {
    hide Last;
    LastOfLast(past, h[|past|..], n);
    assert past + h[|past|..] == h;
  }

  lemma LastOfLast(past: seq<byte>, more: seq<byte>, n: nat)
    ensures Last(Last(past, n) + more, n) == Last(past + more, n)
  {
  }

  // updatewindow: the window afterwards holds the last bytes of what it held
  // and the `copy0` bytes of output before `end`.
  method UpdateWindow(s: Inflate, end: nat, copy0: nat, ghost past: seq<byte>, ghost h: seq<byte>)
    requires s.output != s.window && 0 < s.window.Length
    requires HoldsWindow(past, s.window, s.whave, s.wnext)
    requires copy0 <= end && Tracks(h, past, s.output, end - copy0, end)
    modifies s`whave, s`wnext, s.window
    ensures HoldsWindow(Last(h, s.window.Length), s.window, s.whave, s.wnext)
  {
    hide HoldsWindow, Tracks, Last;
    WindowBounds(past, s.window, s.whave, s.wnext);
    TracksSize(h, past, s.output, end - copy0, end);
    var copy := copy0;
    var wsize := s.window.Length;
    if copy >= wsize {
      CopyBytes(s.window, 0, s.output, end - wsize, wsize);
      Overwritten(s.window, s.output, end, h, past, copy);
      s.wnext := 0;
      s.whave := wsize;
    } else {
      var dist := wsize - s.wnext;
      if dist > copy {
        dist := copy;
      }
      TracksPart(h, past, s.output, end, copy, dist);
      ghost var h1 := h[..|past| + dist];
      WriteWindow(s.window, s.whave, s.wnext, s.output, end - copy + dist, dist, past, h1);
      copy := copy - dist;
      if copy != 0 {
        TracksLast(h, h1, s.output, end - copy, end, wsize);
        WriteWindow(s.window, wsize, 0, s.output, end, copy, Last(h1, wsize), Last(h1, wsize) + h[|h1|..]);
        s.wnext := copy;
        s.whave := wsize;
      } else {
        assert h1 == h;
        s.wnext := s.wnext + dist;
        if s.wnext == wsize {
          s.wnext := 0;
        }
        if s.whave < wsize {
          s.whave := s.whave + dist;
        }
      }
    }
  }

  // What was kept of everything before: all of it, or w bytes and more.
  ghost predicate Kept(before: seq<byte>, h0: seq<byte>, w: nat) {
    before == [] || w <= |h0|
  }

  // What one call decodes after what came before it, of which it saw only the
  // end, is what the whole symbol stream stands for: neither fails alone.
  lemma Continues(prior: seq<Symbol>, before: seq<byte>, h0: seq<byte>, syms: seq<Symbol>, w: nat)
    requires Expand(prior) == Some(before + h0) && Kept(before, h0, w) && Encodable(syms, w)
    ensures Expand(prior + syms) ==
      match ExpandFrom(h0, syms)
      case None => None
      case Some(h) => Some(before + h)
  {
    ExpandAppend([], prior, syms, before + h0);
    if ExpandFrom(h0, syms).Some? {
      ExpandBehind(before, h0, syms);
    } else if ExpandFrom(before + h0, syms).Some? {
      KeptIsEnough(before, h0, syms, w);
    }
  }

  lemma {:induction false} KeptIsEnough(before: seq<byte>, h0: seq<byte>, syms: seq<Symbol>, w: nat)
    requires ExpandFrom(before + h0, syms).Some? && Kept(before, h0, w) && Encodable(syms, w)
    ensures ExpandFrom(h0, syms).Some?
  {
    if syms != [] {
      var front := syms[..|syms| - 1];
      KeptIsEnough(before, h0, front, w);
      ExpandBehind(before, h0, front);
      ExpandGrows(h0, front);
    }
  }

  // And so inflating what deflate wrote gives its input back, in whatever
  // pieces the symbols are read.
  lemma RoundTrip(
    sent: seq<Symbol>, input: seq<byte>, prior: seq<Symbol>, before: seq<byte>, h0: seq<byte>, syms: seq<Symbol>,
    w: nat)
    requires Expand(sent) == Some(input) && Encodable(sent, w)
    requires Expand(prior) == Some(before + h0) && Kept(before, h0, w)
    requires prior + syms <= sent
    ensures ExpandFrom(h0, syms).Some? && before + ExpandFrom(h0, syms).value <= input
    ensures prior + syms == sent ==> before + ExpandFrom(h0, syms).value == input
  {
    var rest := sent[|prior + syms|..];
    assert sent == prior + syms + rest;
    ExpandPrefix(prior + syms, rest);
    assert forall i | 0 <= i < |syms| :: syms[i] == sent[|prior| + i];
    Continues(prior, before, h0, syms, w);
    var h := ExpandFrom(h0, syms).value;
    ExpandAppend([], prior + syms, rest, before + h);
    ExpandGrows(before + h, rest);
  }

  lemma {:induction false} ExpandPrefix(a: seq<Symbol>, b: seq<Symbol>)
    requires Expand(a + b).Some?
    ensures Expand(a).Some?
  {
    if b == [] {
      assert a + b == a;
    } else {
      assert (a + b)[..|a + b| - 1] == a + b[..|b| - 1];
      ExpandPrefix(a, b[..|b| - 1]);
    }
  }

  // inflate_fast does not stop for bad data on a block that stands for something.
  lemma NotBad(
    s: Inflate, stream: nat, block: seq<Symbol>, prior: seq<Symbol>, before: seq<byte>, h0: seq<byte>, w: nat,
    syms: seq<Symbol>, used: nat, h: seq<byte>)
    requires TableOk(s.lens) && TableOk(s.dists)
    requires StartsWith(s.lens, s.dists, stream, block) && At(s.lens, s.dists, stream, |block|) == End
    requires Expand(prior) == Some(before + h0) && Kept(before, h0, w)
    requires Expand(prior + block).Some? && Encodable(block, w)
    requires StartsWith(s.lens, s.dists, stream, syms) && ExpandFrom(h0, syms) == Some(h)
    requires Outcome(s, stream, syms, used, |h|)
    ensures s.mode != BAD && syms <= block && (s.mode == TYPE ==> syms == block)
  {
    hide At, Position, TableOk, ExpandFrom, Expand, Encodable;
    assert |syms| <= |block|;
    assert forall i | 0 <= i < |syms| :: Sym(syms[i]) == Sym(block[i]);
    if |syms| < |block| {
      NextReaches(block, prior, before, h0, w, syms, h);
      assert At(s.lens, s.dists, stream, |syms|) == Sym(block[|syms|]);
    }
  }

  // One call on the bits that a compressor wrote for a block with these tables:
  // it is never stopped by bad data, gives back the bytes that the block stands
  // for from the first on, and leaves the bits after those it has carried out;
  // at the end of the block, all of its bytes and the bits after the block.
  lemma BitsRoundTrip(
    s: Inflate, o: Origin, ws: seq<Written>, rest: Bits, block: seq<Symbol>, prior: seq<Symbol>, before: seq<byte>,
    h0: seq<byte>, w: nat, syms: seq<Symbol>, used: nat, h: seq<byte>, plain: seq<byte>)
    requires TableOk(s.lens) && TableOk(s.dists) && Writes(s.lens, s.dists, ws, block)
    requires o.hold < Pow2(o.bits) && o.next <= |s.input|
    requires BitsOfNumber(o.hold, o.bits) + BitsOf(s.input[o.next..]) == BlockBits(ws) + rest
    requires Expand(prior) == Some(before + h0) && Kept(before, h0, w)
    requires Expand(prior + block) == Some(plain) && Encodable(block, w)
    requires StartsWith(s.lens, s.dists, s.StreamOf(o), syms) && ExpandFrom(h0, syms) == Some(h)
    requires Outcome(s, s.StreamOf(o), syms, used, |h|)
    ensures s.mode == LEN || s.mode == TYPE
    ensures syms <= block && before + h <= plain
    ensures s.mode == LEN ==>
      used == |BlockBits(ws[..|syms|])| && High(s.StreamOf(o), used) == Number(BlockBits(ws[|syms|..]) + rest)
    ensures s.mode == TYPE ==>
      before + h == plain && used == |BlockBits(ws)| && High(s.StreamOf(o), used) == Number(rest)
  {
    hide Stream, Number, BlockBits, BitsOf, BitsOfNumber, At, Position, TableOk, ExpandFrom, Expand, Encodable, High,
      Pow2;
    var stream := s.StreamOf(o);
    StreamBits(o.hold, o.bits, s.input[o.next..]);
    BlockRead(s.lens, s.dists, ws, block, rest);
    NotBad(s, stream, block, prior, before, h0, w, syms, used, h);
    BlockPrefix(block, prior, before, h0, w, syms, h, plain);
    if s.mode == TYPE {
      assert ws[..|syms| + 1] == ws && ws[|syms| + 1..] == [];
      NoBlock(ws[|syms| + 1..]);
      assert [] + rest == rest;
    }
  }

  // Each block that a compressor sends is one that the lemma above is about.
  lemma BlockOfStream(given: seq<Given>, sent: seq<Symbol>, input: seq<byte>, w: nat, i: nat)
    requires SymbolsIn(given) == sent && Expand(sent) == Some(input) && Encodable(sent, w) && i < |given|
    ensures var prior, block := SymbolsIn(given[..i]), SymbolsOf(given[i]);
      && Expand(prior).Some? && Encodable(block, w)
      && Expand(prior + block).Some? && Expand(prior + block).value <= input
  {
    hide SymbolsIn, SymbolsOf, Expand, Encodable;
    SymbolsAround(given, i);
    PartOfStream(SymbolsIn(given[..i]), SymbolsOf(given[i]), SymbolsIn(given[i + 1..]), input, w);
  }

  lemma PartOfStream(prior: seq<Symbol>, block: seq<Symbol>, rest: seq<Symbol>, input: seq<byte>, w: nat)
    requires Expand((prior + block) + rest) == Some(input) && Encodable((prior + block) + rest, w)
    ensures Expand(prior).Some? && Encodable(block, w)
    ensures Expand(prior + block).Some? && Expand(prior + block).value <= input
  {
    hide ExpandFrom;
    ExpandPrefix(prior + block, rest);
    ExpandPrefix(prior, block);
    ExpandAppend([], prior + block, rest, Expand(prior + block).value);
    ExpandGrows(Expand(prior + block).value, rest);
    forall k | 0 <= k < |block| && block[k].Match? ensures 3 <= block[k].len <= 258 && 1 <= block[k].dist <= w {
      assert ((prior + block) + rest)[|prior| + k] == block[k];
    }
  }

  lemma BlockPrefix(
    block: seq<Symbol>, prior: seq<Symbol>, before: seq<byte>, h0: seq<byte>, w: nat, syms: seq<Symbol>, h: seq<byte>,
    plain: seq<byte>)
    requires Expand(prior) == Some(before + h0) && Kept(before, h0, w)
    requires Expand(prior + block) == Some(plain) && Encodable(block, w)
    requires syms <= block && ExpandFrom(h0, syms) == Some(h)
    ensures before + h <= plain && (syms == block ==> before + h == plain)
  {
    assert forall i | 0 <= i < |syms| :: syms[i] == block[i];
    Continues(prior, before, h0, syms, w);
    var tail := block[|syms|..];
    assert prior + block == prior + syms + tail;
    ExpandAppend([], prior + syms, tail, before + h);
    ExpandGrows(before + h, tail);
  }

  // The next symbol of the block has its distance within what was kept.
  lemma NextReaches(
    block: seq<Symbol>, prior: seq<Symbol>, before: seq<byte>, h0: seq<byte>, w: nat, syms: seq<Symbol>, h: seq<byte>)
    requires Expand(prior) == Some(before + h0) && Kept(before, h0, w)
    requires Expand(prior + block).Some? && Encodable(block, w)
    requires syms <= block && |syms| < |block| && ExpandFrom(h0, syms) == Some(h)
    ensures block[|syms|].Match? ==> block[|syms|].dist <= |h|
  {
    var next := block[..|syms| + 1];
    assert next[..|syms|] == syms;
    assert prior + block == prior + next + block[|syms| + 1..];
    ExpandPrefix(prior + next, block[|syms| + 1..]);
    Continues(prior, before, h0, next, w);
  }

  lemma {:induction false} ExpandGrows(history: seq<byte>, syms: seq<Symbol>)
    requires ExpandFrom(history, syms).Some?
    ensures history <= ExpandFrom(history, syms).value
  {
    if syms != [] {
      ExpandGrows(history, syms[..|syms| - 1]);
      var out := ExpandFrom(history, syms[..|syms| - 1]).value;
      var s := syms[|syms| - 1];
      if s.Match? {
        CopyBackGrows(out, s.dist, s.len);
      }
    }
  }
}
