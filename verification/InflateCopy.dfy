// Copying a match: its bytes come from the circular window, from the output
// already written, or first from one and then from the other, and the copy may
// overlap what it writes.
module InflateCopy {
  import opened Basics
  import opened Lz77

  // The window's valid bytes, oldest first. Until it is full it is written from
  // the start; then the oldest byte is the next one to be overwritten.
  ghost predicate HoldsWindow(past: seq<byte>, window: array<byte>, whave: nat, wnext: nat)
    reads window
  {
    && |past| == whave <= window.Length
    && (whave < window.Length ==>
          wnext == whave && forall k | 0 <= k < whave :: window[k] == past[k])
    && (whave == window.Length ==>
          && (wnext < whave || wnext == whave == 0)
          && (forall k | wnext <= k < whave :: window[k] == past[k - wnext])
          && (forall k | 0 <= k < wnext :: window[k] == past[whave - wnext + k]))
  }

  // What the window holds while output is written up to `out`. inflateBack writes
  // into the window itself, from its start: the bytes from there on are then
  // still those of the round before.
  ghost predicate WindowHolds(
    past: seq<byte>, window: array<byte>, whave: nat, wnext: nat, output: array<byte>, beg: nat, out: nat)
    reads window
  {
    if output != window then HoldsWindow(past, window, whave, wnext)
    else
      && beg == 0 && wnext == 0 && |past| == whave <= window.Length
      && forall k | out <= k < window.Length && window.Length - whave <= k ::
           window[k] == past[k - (window.Length - whave)]
  }

  // h is the window's bytes followed by the output from beg to out.
  ghost predicate Tracks(h: seq<byte>, past: seq<byte>, output: array<byte>, beg: nat, out: nat)
    reads output
  {
    && beg <= out <= output.Length
    && |h| == |past| + (out - beg) && past <= h
    && forall i | beg <= i < out :: output[i] == h[|past| + i - beg]
  }

  lemma TracksSize(h: seq<byte>, past: seq<byte>, output: array<byte>, beg: nat, out: nat)
    requires Tracks(h, past, output, beg, out)
    ensures beg <= out <= output.Length && |h| == |past| + (out - beg)
  {
  }

  // A match in the middle of being copied: `len` bytes from `dist` back are
  // still to come, and then the history will be `goal`.
  ghost predicate Copying(
    h: seq<byte>, past: seq<byte>, output: array<byte>, beg: nat, out: nat, dist: nat, len: nat, goal: seq<byte>)
    reads output
  {
    && Tracks(h, past, output, beg, out)
    && 1 <= dist <= |h| && out + len <= output.Length
    && CopyBack(h, dist, len) == goal
  }

  datatype Source = FromWindow(at: nat) | FromOutput(at: nat)

  // `from` points at the bytes that the match repeats, enough of them.
  ghost predicate PointsAt(
    from: Source, h: seq<byte>, past: seq<byte>, window: array<byte>, output: array<byte>, out: nat, dist: nat,
    len: nat)
    reads window
  {
    match from
    case FromWindow(at) =>
      && (output == window ==> out <= at)
      && at + len <= window.Length && dist <= |h| && |h| - dist + len <= |past|
      && forall i | at <= i < at + len :: window[i] == past[|h| - dist + i - at]
    case FromOutput(at) =>
      at == out - dist && dist <= |h| - |past|
  }

  // *out++ = *from++
  method CopyOne(
    output: array<byte>, window: array<byte>, from: Source, out: nat,
    ghost h: seq<byte>, ghost past: seq<byte>, ghost beg: nat, ghost dist: nat, ghost len: nat, ghost some: nat,
    ghost goal: seq<byte>)
    returns (next: Source, ghost h1: seq<byte>)
    requires 0 < some <= len
    requires Copying(h, past, output, beg, out, dist, len, goal)
    requires PointsAt(from, h, past, window, output, out, dist, some)
    modifies output
    ensures Copying(h1, past, output, beg, out + 1, dist, len - 1, goal)
    ensures PointsAt(next, h1, past, window, output, out + 1, dist, some - 1)
    ensures |h1| == |h| + 1
    ensures forall i | 0 <= i < output.Length && i != out :: output[i] == old(output[i])
  {
    var b: byte;
    match from {
      case FromWindow(at) =>
        b := window[at];
        next := FromWindow(at + 1);
      case FromOutput(at) =>
        b := output[at];
        next := FromOutput(at + 1);
    }
    assert b == h[|h| - dist];
    h1 := h + [b];
    output[out] := b;
  }

  // do { *out++ = *from++; } while (--op);
  method CopyRun(
    output: array<byte>, window: array<byte>, from0: Source, out0: nat, op0: nat,
    ghost h0: seq<byte>, ghost past: seq<byte>, ghost beg: nat, ghost dist: nat, ghost len: nat,
      ghost goal: seq<byte>)
    returns (out: nat, ghost h: seq<byte>)
    requires 0 < op0
    requires Copying(h0, past, output, beg, out0, dist, op0 + len, goal)
    requires PointsAt(from0, h0, past, window, output, out0, dist, op0)
    modifies output
    ensures out == out0 + op0 && |h| == |h0| + op0
    ensures Copying(h, past, output, beg, out, dist, len, goal)
    ensures forall i | 0 <= i < output.Length && !(out0 <= i < out) :: output[i] == old(output[i])
  {
    hide Copying, PointsAt;
    var from, op := from0, op0;
    out, h := out0, h0;
    while op != 0
      invariant 0 <= op <= op0 && out == out0 + op0 - op && |h| == |h0| + op0 - op
      invariant Copying(h, past, output, beg, out, dist, op + len, goal)
      invariant PointsAt(from, h, past, window, output, out, dist, op)
      invariant forall i | 0 <= i < output.Length && !(out0 <= i < out) :: output[i] == old(output[i])
    {
      from, h := CopyOne(output, window, from, out, h, past, beg, dist, op + len, op, goal);
      out := out + 1;
      op := op - 1;
    }
  }

  // *out++ = *from++, three times
  method CopyThree(
    output: array<byte>, window: array<byte>, from: Source, out: nat,
    ghost h: seq<byte>, ghost past: seq<byte>, ghost beg: nat, ghost dist: nat, ghost len: nat, ghost goal: seq<byte>)
    returns (next: Source, ghost h1: seq<byte>)
    requires 3 <= len
    requires Copying(h, past, output, beg, out, dist, len, goal)
    requires PointsAt(from, h, past, window, output, out, dist, len)
    modifies output
    ensures Copying(h1, past, output, beg, out + 3, dist, len - 3, goal)
    ensures PointsAt(next, h1, past, window, output, out + 3, dist, len - 3)
    ensures forall i | 0 <= i < output.Length && !(out <= i < out + 3) :: output[i] == old(output[i])
  {
    hide Copying, PointsAt;
    next, h1 := CopyOne(output, window, from, out, h, past, beg, dist, len, len, goal);
    next, h1 := CopyOne(output, window, next, out + 1, h1, past, beg, dist, len - 1, len - 1, goal);
    next, h1 := CopyOne(output, window, next, out + 2, h1, past, beg, dist, len - 2, len - 2, goal);
  }

  // The rest of a copy, three bytes at a time and then the one or two left.
  method CopyRest(
    output: array<byte>, window: array<byte>, from0: Source, out0: nat, len0: nat,
    ghost h0: seq<byte>, ghost past: seq<byte>, ghost beg: nat, ghost dist: nat, ghost goal: seq<byte>)
    returns (out: nat, ghost h: seq<byte>)
    requires Copying(h0, past, output, beg, out0, dist, len0, goal)
    requires PointsAt(from0, h0, past, window, output, out0, dist, len0)
    modifies output
    ensures out == out0 + len0 && Tracks(goal, past, output, beg, out)
    ensures forall i | 0 <= i < output.Length && !(out0 <= i < out) :: output[i] == old(output[i])
  {
    hide Copying, PointsAt, Tracks;
    var from, len := from0, len0;
    out, h := out0, h0;
    while len > 2
      invariant 0 <= len <= len0 && out == out0 + len0 - len
      invariant Copying(h, past, output, beg, out, dist, len, goal)
      invariant PointsAt(from, h, past, window, output, out, dist, len)
      invariant forall i | 0 <= i < output.Length && !(out0 <= i < out) :: output[i] == old(output[i])
    {
      from, h := CopyThree(output, window, from, out, h, past, beg, dist, len, goal);
      out, len := out + 3, len - 3;
    }
    if len != 0 {
      from, h := CopyOne(output, window, from, out, h, past, beg, dist, len, len, goal);
      out := out + 1;
      if len > 1 {
        from, h := CopyOne(output, window, from, out, h, past, beg, dist, len - 1, len - 1, goal);
        out := out + 1;
      }
    }
    Copied(h, past, output, beg, out, dist, goal);
  }

  lemma Copied(h: seq<byte>, past: seq<byte>, output: array<byte>, beg: nat, out: nat, dist: nat, goal: seq<byte>)
    requires Copying(h, past, output, beg, out, dist, 0, goal)
    ensures h == goal && Tracks(goal, past, output, beg, out)
  {
  }

  lemma CopyStarts(h: seq<byte>, past: seq<byte>, output: array<byte>, beg: nat, out: nat, dist: nat, len: nat)
    requires Tracks(h, past, output, beg, out) && 1 <= dist <= |h| && out + len <= output.Length
    ensures Copying(h, past, output, beg, out, dist, len, CopyBack(h, dist, len))
  {
  }

  lemma Bounds(h: seq<byte>, past: seq<byte>, output: array<byte>, beg: nat, out: nat, dist: nat, len: nat,
    goal: seq<byte>)
    requires Copying(h, past, output, beg, out, dist, len, goal)
    ensures beg <= out && out + len <= output.Length && |h| == |past| + (out - beg) && 1 <= dist <= |h|
  {
  }

  // Bytes that all lie in the output: the copy may overlap what it writes.
  lemma PointsAtOutput(
    h: seq<byte>, past: seq<byte>, window: array<byte>, output: array<byte>, out: nat, dist: nat, len: nat)
    requires |past| <= |h| - dist && dist <= out
    ensures PointsAt(FromOutput(out - dist), h, past, window, output, out, dist, len)
  {
  }

  // op bytes of the match start op bytes before the end of the window's bytes.
  lemma PointsAtWindow(
    at: nat, op: nat, len: nat, h: seq<byte>, past: seq<byte>, window: array<byte>, whave: nat, wnext: nat,
    output: array<byte>, beg: nat, out: nat, dist: nat)
    requires WindowHolds(past, window, whave, wnext, output, beg, out)
    requires op <= whave && dist <= |h| && |h| - dist == whave - op
    requires output == window ==> op + out <= window.Length
    requires
      || (wnext == 0 && at == window.Length - op && len <= op)
      || (0 < wnext < op && at == window.Length + wnext - op && len <= op - wnext)
      || (op <= wnext && 0 < wnext && at == wnext - op && len <= op)
    ensures PointsAt(FromWindow(at), h, past, window, output, out, dist, len)
  {
  }

  // The start of the window, once its end has been copied.
  lemma PointsAtStart(
    len: nat, h: seq<byte>, past: seq<byte>, window: array<byte>, whave: nat, wnext: nat, output: array<byte>,
    out: nat, dist: nat)
    requires output != window && HoldsWindow(past, window, whave, wnext) && whave == window.Length
    requires dist <= |h| && |h| - dist == whave - wnext && len <= wnext
    ensures PointsAt(FromWindow(0), h, past, window, output, out, dist, len)
  {
  }

  // A match that starts op0 bytes before the end of the window's bytes: in the
  // window up to its end, and from its start if it is written in between, and
  // in the output after that.
  method CopyFromWindow(
    output: array<byte>, window: array<byte>, whave: nat, wnext: nat, out0: nat, dist: nat, len0: nat, op0: nat,
    ghost h0: seq<byte>, ghost past: seq<byte>, ghost beg: nat, ghost goal: seq<byte>)
    returns (out: nat)
    requires WindowHolds(past, window, whave, wnext, output, beg, out0)
    requires output == window ==> dist <= window.Length
    requires Copying(h0, past, output, beg, out0, dist, len0, goal)
    requires 0 < op0 <= whave && dist == op0 + (out0 - beg)
    modifies output
    ensures out == out0 + len0 && Tracks(goal, past, output, beg, out)
    ensures forall i | 0 <= i < output.Length && !(out0 <= i < out) :: output[i] == old(output[i])
  {
    hide Copying, PointsAt, HoldsWindow, WindowHolds, Tracks;
    Bounds(h0, past, output, beg, out0, dist, len0, goal);
    OutputBounds(past, window, whave, wnext, output, beg, out0);
    ghost var h := h0;
    var len, op := len0, op0;
    var from: Source;
    out := out0;
    if wnext == 0 {
      from := FromWindow(window.Length - op);
      PointsAtWindow(window.Length - op, op, Min(op, len), h, past, window, whave, wnext, output, beg, out, dist);
      if op < len {
        len := len - op;
        out, h := CopyRun(output, window, from, out, op, h, past, beg, dist, len, goal);
        from := FromOutput(out - dist);
        PointsAtOutput(h, past, window, output, out, dist, len);
      }
    } else if wnext < op {
      from := FromWindow(window.Length + wnext - op);
      op := op - wnext;
      PointsAtWindow(window.Length - op, op0, Min(op, len), h, past, window, whave, wnext, output, beg, out, dist);
      if op < len {
        len := len - op;
        out, h := CopyRun(output, window, from, out, op, h, past, beg, dist, len, goal);
        from := FromWindow(0);
        PointsAtStart(Min(wnext, len), h, past, window, whave, wnext, output, out, dist);
        if wnext < len {
          op := wnext;
          len := len - op;
          out, h := CopyRun(output, window, from, out, op, h, past, beg, dist, len, goal);
          from := FromOutput(out - dist);
          PointsAtOutput(h, past, window, output, out, dist, len);
        }
      }
    } else {
      from := FromWindow(wnext - op);
      PointsAtWindow(wnext - op, op, Min(op, len), h, past, window, whave, wnext, output, beg, out, dist);
      if op < len {
        len := len - op;
        out, h := CopyRun(output, window, from, out, op, h, past, beg, dist, len, goal);
        from := FromOutput(out - dist);
        PointsAtOutput(h, past, window, output, out, dist, len);
      }
    }
    Bounds(h, past, output, beg, out, dist, len, goal);
    out, h := CopyRest(output, window, from, out, len, h, past, beg, dist, goal);
  }

  lemma WindowBounds(past: seq<byte>, window: array<byte>, whave: nat, wnext: nat)
    requires HoldsWindow(past, window, whave, wnext)
    ensures |past| == whave && wnext <= whave <= window.Length
    ensures whave < window.Length ==> wnext == whave
  {
  }

  lemma OutputBounds(
    past: seq<byte>, window: array<byte>, whave: nat, wnext: nat, output: array<byte>, beg: nat, out: nat)
    requires WindowHolds(past, window, whave, wnext, output, beg, out)
    ensures |past| == whave && wnext <= whave <= window.Length
    ensures wnext != 0 && whave < window.Length ==> wnext == whave
    ensures if output == window then beg == 0 && wnext == 0 else HoldsWindow(past, window, whave, wnext)
  {
  }

  // A match, wherever it starts: afterwards the output holds just what a copy
  // one byte at a time from the whole history would have appended.
  method CopyAnywhere(
    output: array<byte>, window: array<byte>, whave: nat, wnext: nat, beg: nat, out0: nat, dist: nat, len0: nat,
    ghost h: seq<byte>, ghost past: seq<byte>)
    returns (out: nat)
    requires WindowHolds(past, window, whave, wnext, output, beg, out0)
    requires output == window ==> dist <= window.Length
    requires Tracks(h, past, output, beg, out0) && out0 + len0 <= output.Length
    requires 1 <= dist <= |h| && 3 <= len0
    modifies output
    ensures out == out0 + len0 && Tracks(CopyBack(h, dist, len0), past, output, beg, out)
    ensures forall i | 0 <= i < output.Length && !(out0 <= i < out) :: output[i] == old(output[i])
  {
    hide Copying, PointsAt, HoldsWindow, WindowHolds, Tracks;
    ghost var goal := CopyBack(h, dist, len0);
    CopyStarts(h, past, output, beg, out0, dist, len0);
    Bounds(h, past, output, beg, out0, dist, len0, goal);
    OutputBounds(past, window, whave, wnext, output, beg, out0);
    var op := out0 - beg;
    if dist > op {
      op := dist - op;
      out := CopyFromWindow(output, window, whave, wnext, out0, dist, len0, op, h, past, beg, goal);
    } else {
      PointsAtOutput(h, past, window, output, out0, dist, len0);
      var len, from := len0, FromOutput(out0 - dist);
      ghost var h1;
      from, h1 := CopyThree(output, window, from, out0, h, past, beg, dist, len, goal);
      len := len - 3;
      Bounds(h1, past, output, beg, out0 + 3, dist, len, goal);
      out, h1 := CopyRest(output, window, from, out0 + 3, len, h1, past, beg, dist, goal);
    }
  }

  // A distance as it takes effect. In a window that is also the output the byte
  // a whole window back is the one about to be written, and one further back has
  // been overwritten: what is there is one window newer.
  function Effective(dist: nat, size: nat): nat {
    if dist > size then dist - size else dist
  }

  // Such a match: the lines of the first case above, where the window's bytes
  // that `from` points at are bytes of the output.
  method CopyOverwritten(
    window: array<byte>, out0: nat, dist: nat, len0: nat, ghost h: seq<byte>, ghost past: seq<byte>)
    returns (out: nat)
    requires Tracks(h, past, window, 0, out0) && out0 + len0 <= window.Length
    requires window.Length < dist <= out0 + window.Length
    modifies window
    ensures out == out0 + len0 && Tracks(CopyBack(h, dist - window.Length, len0), past, window, 0, out)
    ensures forall i | 0 <= i < window.Length && !(out0 <= i < out) :: window[i] == old(window[i])
  {
    hide Copying, PointsAt, Tracks;
    TracksSize(h, past, window, 0, out0);
    var op, near := dist - out0, dist - window.Length;
    CopyStarts(h, past, window, 0, out0, near, len0);
    PointsAtOutput(h, past, window, window, out0, near, len0);
    var from := FromOutput(window.Length - op);
    assert len0 <= op;
    ghost var goal;
    out, goal := CopyRest(window, window, from, out0, len0, h, past, 0, near, CopyBack(h, near, len0));
  }

  // Any match, and what the window holds of use is not touched.
  method CopyMatch(
    output: array<byte>, window: array<byte>, whave: nat, wnext: nat, beg: nat, out0: nat, dist: nat, len0: nat,
    ghost h: seq<byte>, ghost past: seq<byte>)
    returns (out: nat)
    requires WindowHolds(past, window, whave, wnext, output, beg, out0)
    requires Tracks(h, past, output, beg, out0) && out0 + len0 <= output.Length
    requires 1 <= dist <= |h| && 3 <= len0
    modifies output
    ensures out == out0 + len0
    ensures var d := if output == window then Effective(dist, window.Length) else dist;
      1 <= d <= |h| && Tracks(CopyBack(h, d, len0), past, output, beg, out)
    ensures WindowHolds(past, window, whave, wnext, output, beg, out)
    ensures forall i | 0 <= i < output.Length && !(out0 <= i < out) :: output[i] == old(output[i])
  {
    hide Tracks, CopyBack;
    TracksSize(h, past, output, beg, out0);
    if output == window && dist > window.Length {
      out := CopyOverwritten(window, out0, dist, len0, h, past);
    } else {
      out := CopyAnywhere(output, window, whave, wnext, beg, out0, dist, len0, h, past);
    }
  }

  // A window not full yet, and a distance before its first byte: accepted, and
  // answered with a byte that was never written.
  method UnwrittenByte(window: array<byte>) returns (out: nat)
    requires window.Length == 8
    modifies window
    ensures out == 7 && window[4] == old(window[6])
  {
    ghost var past, h := window[4..], window[4..] + window[..4];
    out := CopyMatch(window, window, 4, 0, 0, 4, 6, 3, h, past);
    CopyBackFirst(h, 6, 3);
  }

  // A full window, and a distance beyond it: answered with the byte that took the
  // place of the one asked for.
  method OverwrittenByte(window: array<byte>) returns (out: nat)
    requires window.Length == 8
    modifies window
    ensures out == 7 && window[4] == old(window[2])
  {
    ghost var past, h := window[..], window[..] + window[..4];
    out := CopyMatch(window, window, 8, 0, 0, 4, 10, 3, h, past);
    CopyBackFirst(h, 2, 3);
  }

  lemma CopyBackFirst(h: seq<byte>, dist: nat, len: nat)
    requires 1 <= dist <= |h| && 1 <= len
    ensures |CopyBack(h, dist, len)| == |h| + len && CopyBack(h, dist, len)[|h|] == h[|h| - dist]
  {
    CopyBackGrows(h + [h[|h| - dist]], dist, len - 1);
  }
}
