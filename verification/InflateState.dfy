// The part of inflate's state that inflate_fast works on, its bit buffer, and
// reading one symbol without checking for input at every bit.
module InflateState {
  import opened Basics
  import opened Lz77
  import opened Powers
  import opened BitStream
  import opened InflateTables

  datatype Mode = LEN | TYPE | BAD

  // Where the bit buffer stood when decoding began.
  datatype Origin = Origin(hold: nat, bits: nat, next: nat)

  class Inflate {
    const input: seq<uint8>
    const output: array<byte>
    const window: array<byte>
    const lens: Table
    const dists: Table

    var mode: Mode
    // strm->next_in and the bit accumulator: `bits` bits not yet used
    var nextIn: nat
    var hold: nat
    var bits: nat
    var availIn: nat
    // strm->next_out
    var nextOut: nat
    var availOut: nat
    // the sliding window: valid bytes in it, and where it is written next
    var whave: nat
    var wnext: nat

    constructor (input: seq<uint8>, output: array<byte>, window: array<byte>, lens: Table, dists: Table)
      ensures this.input == input && this.output == output && this.window == window
      ensures this.lens == lens && this.dists == dists && mode == LEN
    {
      this.input, this.output, this.window, this.lens, this.dists := input, output, window, lens, dists;
      mode := LEN;
      new;
    }

    ghost function StreamOf(o: Origin): nat
      requires o.next <= |input|
    {
      Stream(o.hold, o.bits, input[o.next..])
    }

    // `used` bits of the stream have been read since o: the accumulator has
    // the next ones, no more than 30 of them, and the input those after that.
    ghost predicate Reading(o: Origin, used: nat)
      reads `hold, `bits, `nextIn
    {
      && o.next <= nextIn <= |input| && o.hold < Pow2(o.bits)
      && bits <= 30 && hold < Pow2(bits)
      && used + bits == o.bits + 8 * (nextIn - o.next)
      && Stream(hold, bits, input[nextIn..]) == High(StreamOf(o), used)
    }

    // hold += *in++ << bits; bits += 8
    method PullByte(ghost o: Origin, ghost used: nat)
      requires Reading(o, used) && nextIn < |input| && bits <= 22
      modifies `hold, `bits, `nextIn
      ensures Reading(o, used) && nextIn == old(nextIn) + 1 && bits == old(bits) + 8
    {
      hide Pow2, Stream, High, ByteValue;
      StreamPull(hold, bits, input[nextIn..]);
      assert input[nextIn..][1..] == input[nextIn + 1..];
      hold := hold + ByteValue(input[nextIn]) * Pow2(bits);
      bits := bits + 8;
      nextIn := nextIn + 1;
    }

    // hold >>= n; bits -= n
    method Drop(n: nat, ghost o: Origin, ghost used: nat)
      requires Reading(o, used) && n <= bits
      modifies `hold, `bits
      ensures Reading(o, used + n) && bits == old(bits) - n
      ensures hold == High(old(hold), n)
    {
      hide Pow2, Stream, High, Low;
      StreamPeek(hold, bits, input[nextIn..], n);
      HighTwice(StreamOf(o), used, n);
      hold := High(hold, n);
      bits := bits - n;
    }

    // hold & ((1 << n) - 1)
    lemma Peek(n: nat, o: Origin, used: nat)
      requires Reading(o, used) && n <= bits
      ensures Low(hold, n) == Low(High(StreamOf(o), used), n)
    {
      hide Pow2, Stream, High, Low;
      StreamPeek(hold, bits, input[nextIn..], n);
    }

    method Refill(ghost o: Origin, ghost used: nat)
      requires Reading(o, used) && (bits < 15 ==> nextIn + 2 <= |input|)
      modifies `hold, `bits, `nextIn
      ensures Reading(o, used) && 15 <= bits
      ensures nextIn == if old(bits) < 15 then old(nextIn) + 2 else old(nextIn)
    {
      hide Reading;
      if bits < 15 {
        PullByte(o, used);
        PullByte(o, used);
      }
    }

    lemma StreamDefined(o: Origin, used: nat)
      requires Reading(o, used)
      ensures o.next <= nextIn <= |input| && bits <= 30 && hold < Pow2(bits)
      ensures used + bits == o.bits + 8 * (nextIn - o.next)
    {
    }

    lemma StreamLeft(o: Origin, used: nat)
      requires Reading(o, used)
      ensures nextIn <= |input| && o.next <= |input|
      ensures Stream(hold, bits, input[nextIn..]) == High(StreamOf(o), used)
    {
    }

    // The entry for the code at hand, through any links.
    method FindEntry(t: Table, ghost o: Origin, ghost used: nat) returns (here: Code, ghost n: nat)
      requires Reading(o, used) && 15 <= bits && TableOk(t)
      modifies `hold, `bits
      ensures o.next <= |input| && (here, n) == FindCode(t, High(StreamOf(o), used))
      ensures Reading(o, used + n) && bits == old(bits) - n
    {
      hide Pow2, High, Low, Stream, Reading, KindOf, EntryOk;
      StreamDefined(o, used);
      ghost var v := High(StreamOf(o), used);
      Peek(t.root, o, used);
      here := t.codes[Low(hold, t.root)];
      n := here.bits;
      EntryBits(t, v);
      Drop(here.bits, o, used);
      ghost var level := 0;
      while here.op != 0 && here.op & 16 == 0 && here.op & 64 == 0
        invariant Reading(o, used + n) && bits == old(bits) - n
        invariant if level == 0 then here == t.codes[Low(v, t.root)] && n == here.bits
                  else (here, n) == FindCode(t, v)
        decreases 1 - level
      {
        LinkTest(here.op);
        LinkBits(t, v);
        HighTwice(StreamOf(o), used, n);
        Peek(here.op as nat, o, used + n);
        here := t.codes[here.val + Low(hold, here.op as nat)];
        Drop(here.bits, o, used + n);
        n := n + here.bits;
        level := 1;
      }
      LinkTest(here.op);
      NoLink(t, v);
    }

    // The extra bits of a length: at most five, so one byte is enough.
    method LengthExtra(extra: nat, ghost o: Origin, ghost used: nat) returns (more: nat)
      requires Reading(o, used) && extra <= 5 && (bits < extra ==> nextIn < |input|)
      modifies `hold, `bits, `nextIn
      ensures o.next <= |input| && more == Low(High(StreamOf(o), used), extra)
      ensures Reading(o, used + extra) && nextIn <= old(nextIn) + 1
    {
      hide Pow2, High, Low, Stream, Reading;
      StreamDefined(o, used);
      more := 0;
      if extra != 0 {
        if bits < extra {
          PullByte(o, used);
        }
        Peek(extra, o, used);
        more := Low(hold, extra);
        Drop(extra, o, used);
      } else {
        LowZero(High(StreamOf(o), used));
      }
    }

    // The extra bits of a distance: at most thirteen, so two bytes are enough.
    method DistanceExtra(extra: nat, ghost o: Origin, ghost used: nat) returns (more: nat)
      requires Reading(o, used) && extra <= 13
      requires used + extra <= o.bits + 8 * (|input| - o.next)
      modifies `hold, `bits, `nextIn
      ensures o.next <= |input| && more == Low(High(StreamOf(o), used), extra)
      ensures Reading(o, used + extra)
      ensures nextIn == old(nextIn) || 8 * (nextIn - o.next) < used + extra - o.bits + 8
    {
      hide Pow2, High, Low, Stream, Reading;
      StreamDefined(o, used);
      if bits < extra {
        PullByte(o, used);
        StreamDefined(o, used);
        if bits < extra {
          PullByte(o, used);
          StreamDefined(o, used);
        }
      }
      Peek(extra, o, used);
      more := Low(hold, extra);
      Drop(extra, o, used);
    }

    // The distance half of a match, with input for all of it.
    method NextDistance(len: nat, ghost o: Origin, ghost used: nat) returns (d: Decoded, ghost n: nat)
      requires Reading(o, used) && DistancesOk(dists)
      requires bits < 15 ==> nextIn + 2 <= |input|
      requires used + 28 <= o.bits + 8 * (|input| - o.next)
      modifies `hold, `bits, `nextIn
      ensures o.next <= |input| && (d, n) == DecodeDistance(dists, High(StreamOf(o), used), len)
      ensures Reading(o, used + n) && n <= 28
      ensures nextIn <= old(nextIn) + 2 || 8 * (nextIn - o.next) < used + n - o.bits + 8
    {
      hide Pow2, High, Low, Stream, Reading, KindOf, TableOk, FindCode;
      StreamDefined(o, used);
      Refill(o, used);
      StreamDefined(o, used);
      var here: Code;
      here, n := FindEntry(dists, o, used);
      LinkTest(here.op);
      if here.op & 16 != 0 {
        var extra := LowNibble(here.op);
        HighTwice(StreamOf(o), used, n);
        var more := DistanceExtra(extra, o, used + n);
        n := n + extra;
        d := Sym(Match(here.val + more, len));
      } else {
        d := BadDistance;
      }
    }

    // One literal, match or mark, without checking for input: six bytes are
    // always enough.
    method NextSymbol(ghost o: Origin, ghost used: nat) returns (d: Decoded, ghost n: nat)
      requires Reading(o, used) && nextIn + 6 <= |input|
      requires LengthsOk(lens) && DistancesOk(dists)
      modifies `hold, `bits, `nextIn
      ensures o.next <= |input| && (d, n) == DecodeOne(lens, dists, High(StreamOf(o), used))
      ensures Reading(o, used + n) && nextIn <= old(nextIn) + 6
    {
      hide Pow2, High, Low, Stream, Reading, KindOf, TableOk, FindCode, DecodeDistance;
      StreamDefined(o, used);
      Refill(o, used);
      StreamDefined(o, used);
      var here: Code;
      here, n := FindEntry(lens, o, used);
      LinkTest(here.op);
      if here.op == 0 {
        d := Sym(Literal((here.val % 256) as bv8));
      } else if here.op & 16 != 0 {
        var extra := LowNibble(here.op);
        HighTwice(StreamOf(o), used, n);
        var more := LengthExtra(extra, o, used + n);
        n := n + extra;
        StreamDefined(o, used + n);
        HighTwice(StreamOf(o), used, n);
        ghost var m: nat;
        d, m := NextDistance(here.val + more, o, used + n);
        n := n + m;
        StreamDefined(o, used + n);
      } else if here.op & 32 != 0 {
        d := End;
      } else {
        d := BadLength;
      }
    }
  }

  lemma LinkTest(op: bv8)
    ensures op != 0 && op & 16 == 0 && op & 64 == 0 <==> KindOf(op).Link?
    ensures KindOf(op).Link? ==> KindOf(op).width == op as nat
    ensures op != 0 && op & 16 != 0 <==> KindOf(op).Base?
    ensures KindOf(op).Base? ==> KindOf(op).extra == LowNibble(op)
    ensures op != 0 && op & 16 == 0 && op & 64 != 0 && op & 32 != 0 <==> KindOf(op).EndOfBlock?
    ensures op == 0 <==> KindOf(op).Lit?
  {
  }

  lemma EntryBits(t: Table, v: nat)
    requires TableOk(t)
    ensures t.codes[Low(v, t.root)].bits <= 15
  {
    var e := t.codes[Low(v, t.root)];
    assert EntryOk(t, e);
  }

  // The second-level entry that a link leads to.
  lemma LinkBits(t: Table, v: nat)
    requires TableOk(t) && KindOf(t.codes[Low(v, t.root)].op).Link?
    ensures var e := t.codes[Low(v, t.root)];
      var width := KindOf(e.op).width;
      && e.bits + width <= 15 && e.val + Low(High(v, e.bits), width) < |t.codes|
      && var sub := t.codes[e.val + Low(High(v, e.bits), width)];
         e.bits + sub.bits <= 15 && FindCode(t, v) == (sub, e.bits + sub.bits)
  {
    hide Pow2, High, Low;
    var e := t.codes[Low(v, t.root)];
    assert EntryOk(t, e);
  }

  lemma NoLink(t: Table, v: nat)
    requires TableOk(t)
    ensures var e := t.codes[Low(v, t.root)]; !KindOf(e.op).Link? ==> FindCode(t, v) == (e, e.bits)
  {
  }

  lemma LowZero(v: nat)
    ensures Low(v, 0) == 0
  {
  }
}
