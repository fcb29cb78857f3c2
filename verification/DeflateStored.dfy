// deflate_stored: blocks copied straight from the input where they can be, and
// through the window and the pending buffer where they cannot.
module DeflateStored {
  import opened Basics
  import opened Lz77
  import opened Powers
  import opened StoredBlocks
  import opened DeflateModes

  // `out` is those blocks, which are the input but for its last `wait` bytes.
  ghost predicate Wrote(out: seq<uint8>, wait: nat, input: seq<uint8>, blocks: seq<Block>, buf: nat, valid: nat) {
    && out == Encoded(buf, valid, blocks) && WellFormed(blocks)
    && wait <= |input| && Payload(blocks) == input[..|input| - wait]
  }

  // One more block, of the bytes that waited longest and of new ones.
  lemma WroteNext(
    out: seq<uint8>, wait: nat, input: seq<uint8>, blocks: seq<Block>, buf: nat, valid: nat,
    more: seq<uint8>, n: nat, last: bool)
    requires Wrote(out, wait, input, blocks, buf, valid) && forall i | 0 <= i < |blocks| :: !blocks[i].last
    requires n <= wait + |more| && n <= 65535
    ensures var at := |input| - wait;
      var block := Block(last, (input + more)[at..at + n]);
      Wrote(out + BlockBytes(if blocks == [] then buf else 0, if blocks == [] then valid else 0, block), wait
        + |more| - n,
            input + more, blocks + [block], buf, valid)
  {
    hide Encoded, Payload, BlockBytes;
    var at := |input| - wait;
    var block := Block(last, (input + more)[at..at + n]);
    EncodedNext(buf, valid, blocks, block);
    assert (input + more)[..at] == input[..at];
    assert (input + more)[..at + n] == input[..at] + block.data;
  }

  // More input that only waits.
  lemma WroteMore(out: seq<uint8>, wait: nat, input: seq<uint8>, blocks: seq<Block>, buf: nat, valid: nat,
    more: seq<uint8>)
    requires Wrote(out, wait, input, blocks, buf, valid)
    ensures Wrote(out, wait + |more|, input + more, blocks, buf, valid)
  {
    assert (input + more)[..|input| - wait] == input[..|input| - wait];
  }

  class Stored {
    // the caller's buffers
    var input: seq<uint8>
    var nextIn: nat
    var output: array<uint8>
    var nextOut: nat
    // bytes, and bits before them, that wait for room
    var pending: seq<uint8>
    var biBuf: nat
    var biValid: nat
    const pendingSize: nat
    // the window, of twice wSize bytes
    const window: array<uint8>
    const wSize: nat
    var strstart: nat
    var blockStart: nat
    // for a later change of level
    var insert: nat
    var matches: nat
    var highWater: nat

    // all the input taken so far, all the output given so far, the blocks in
    // it, and the bits it began with
    ghost var consumed: seq<uint8>
    ghost var delivered: seq<uint8>
    ghost var blocks: seq<Block>
    // where the output buffer was first written
    ghost var outFrom: nat
    ghost const startBuf: nat
    ghost const startValid: nat

    constructor (wSize: nat, pendingSize: nat, biBuf: nat, biValid: nat)
      requires 1 <= wSize && 6 < pendingSize && biValid < 8 && biBuf < Pow2(biValid)
      ensures Valid() && fresh(window) && fresh(output)
      ensures consumed == [] && delivered == [] && blocks == [] && this.wSize == wSize
      ensures this.pendingSize == pendingSize && this.biBuf == biBuf && this.biValid == biValid && pending == []
      ensures strstart == 0 && blockStart == 0 && insert == 0 && matches == 0 && highWater == 0
    {
      this.wSize, this.pendingSize := wSize, pendingSize;
      input, nextIn := [], 0;
      output := new uint8[0];
      nextOut := 0;
      pending, this.biBuf, this.biValid := [], biBuf, biValid;
      window := new uint8[2 * wSize];
      strstart, blockStart, insert, matches, highWater := 0, 0, 0, 0, 0;
      consumed, delivered, blocks, outFrom := [], [], [], 0;
      startBuf, startValid := biBuf, biValid;
    }

    function AvailIn(): nat
      requires nextIn <= |input|
      reads `input, `nextIn
    {
      |input| - nextIn
    }

    function AvailOut(): nat
      requires nextOut <= output.Length
      reads `output, `nextOut
    {
      output.Length - nextOut
    }

    // Input that is in no block yet.
    function Remaining(): nat
      requires nextIn <= |input| && blockStart <= strstart
      reads `input, `nextIn, `strstart, `blockStart
    {
      AvailIn() + (strstart - blockStart)
    }

    // The output buffer holds the end of what was given.
    ghost predicate Placed()
      reads `output, `nextOut, `outFrom, `delivered, output
    {
      && outFrom <= nextOut <= output.Length && nextOut - outFrom <= |delivered|
      && forall i | outFrom <= i < nextOut :: output[i] == delivered[|delivered| - nextOut + i]
    }

    ghost predicate Shape()
      reads `input, `nextIn, `output, `nextOut, `biBuf, `biValid, `strstart, `blockStart, `insert
      reads `outFrom, `delivered, output
    {
      && Placed()
      && nextIn <= |input| && nextOut <= output.Length && output != window
      && biValid < 8 && biBuf < Pow2(biValid) && startValid < 8 && startBuf < Pow2(startValid)
      && 1 <= wSize && window.Length == 2 * wSize && 6 < pendingSize
      && blockStart <= strstart <= window.Length && insert <= wSize
    }

    // The window holds the end of the input taken, all but the last `used`
    // bytes, which went straight to the output.
    ghost predicate History(used: nat)
      reads `strstart, `blockStart, `consumed, window
    {
      && strstart + used <= |consumed| && strstart <= window.Length
      && (used > 0 ==> blockStart == strstart)
      && forall i | 0 <= i < strstart :: window[i] == consumed[|consumed| - used - strstart + i]
    }

    // The output and what is pending are blocks, and the blocks are the input
    // but for what waits in the window.
    ghost predicate Written()
      reads `pending, `biBuf, `biValid, `strstart, `blockStart, `consumed, `delivered, `blocks
    {
      && (if blocks == [] then biBuf == startBuf && biValid == startValid else biBuf == 0 && biValid == 0)
      && blockStart <= strstart
      && Wrote(delivered + pending, strstart - blockStart, consumed, blocks, startBuf, startValid)
    }

    // No block has been marked as the last.
    ghost predicate Open()
      reads `blocks
    {
      forall i | 0 <= i < |blocks| :: !blocks[i].last
    }

    ghost predicate Valid()
      reads this, window, output
    {
      Shape() && History(0) && Written() && |pending| <= pendingSize
    }

    // New buffers, or more room, from the caller between two calls.
    method Supply(input: seq<uint8>, nextIn: nat, output: array<uint8>, nextOut: nat)
      requires Valid() && nextIn <= |input| && nextOut <= output.Length && output != window
      modifies `input, `nextIn, `output, `nextOut, `outFrom
      ensures Valid() && this.input == input && this.nextIn == nextIn && this.output == output
      ensures this.nextOut == nextOut
    {
      this.input, this.nextIn, this.output, this.nextOut := input, nextIn, output, nextOut;
      outFrom := nextOut;
    }

    // zmemcpy(next_out, bytes): the bytes are the caller's.
    method Deliver(bytes: seq<uint8>)
      requires nextOut + |bytes| <= output.Length && Placed()
      modifies `nextOut, `delivered, output
      ensures Placed()
      ensures nextOut == old(nextOut) + |bytes| && delivered == old(delivered) + bytes
      ensures forall i | 0 <= i < output.Length ::
        output[i] == if old(nextOut) <= i < nextOut then bytes[i - old(nextOut)] else old(output[i])
    {
      forall i | 0 <= i < |bytes| {
        output[nextOut + i] := bytes[i];
      }
      nextOut := nextOut + |bytes|;
      delivered := delivered + bytes;
    }

    // flush_pending: as much as there is room for. With fewer than eight bits
    // in the bit buffer, none of them can go.
    method FlushPending()
      requires nextOut <= output.Length && Placed()
      modifies `nextOut, `delivered, `pending, output
      ensures nextOut <= output.Length && Placed() && delivered + pending == old(delivered + pending)
      ensures old(Valid()) ==> Valid()
      ensures |pending| <= old(|pending|)
      ensures pending != [] ==> AvailOut() == 0
      ensures old(|pending|) <= old(AvailOut()) ==> pending == [] && nextOut == old(nextOut) + old(|pending|)
    {
      hide Placed;
      var len := Min(|pending|, output.Length - nextOut);
      var rest := pending[len..];
      assert pending == pending[..len] + rest;
      Deliver(pending[..len]);
      pending := rest;
    }

    // How many bytes the header of a block takes.
    function HeaderSize(): (n: nat)
      reads `biValid
      ensures biValid < 8 ==> n == |Lead(0, biValid, false)| + 4
    {
      (biValid + 42) / 8
    }

    // _tr_stored_block: the header and the bytes, into the pending buffer.
    method TrStoredBlock(data: seq<uint8>, last: bool)
      requires biValid < 8
      modifies `pending, `biBuf, `biValid
      ensures pending == old(pending) + BlockBytes(old(biBuf), old(biValid), Block(last, data))
      ensures biBuf == 0 && biValid == 0
    {
      hide Placed;
      pending := pending + Lead(biBuf, biValid, last) + Lengths(|data|) + data;
      assert pending == old(pending) + BlockBytes(biBuf, biValid, Block(last, data));
      biBuf, biValid := 0, 0;
    }

    // The header of a block whose bytes will follow in the output.
    method DirectHeader(len: nat, last: bool)
      requires Shape() && pending == [] && HeaderSize() <= AvailOut()
      modifies `pending, `biBuf, `biValid, `nextOut, `delivered, output
      ensures Shape() && pending == [] && biBuf == 0 && biValid == 0
      ensures delivered == old(delivered) + Lead(old(biBuf), old(biValid), last) + Lengths(len)
      ensures nextOut == old(nextOut) + old(HeaderSize())
    {
      hide Placed, Lead, Lengths, Patched, BlockBytes;
      ghost var lead := Lead(biBuf, biValid, last);
      PatchedLengths(biBuf, biValid, last, len);
      TrStoredBlock([], last);
      pending := Patched(pending, len);
      assert delivered + pending == delivered + lead + Lengths(len);
      FlushPending();
      assert delivered + pending == delivered;
      SmallPowers();
    }

    // The lengths in the last four bytes replaced.
    function Patched(bytes: seq<uint8>, len: nat): seq<uint8>
      requires 4 <= |bytes|
    {
      var n := |bytes|;
      bytes[n - 4 := len % 256][n - 3 := len / 256 % 256][n - 2 := 255 - len % 256][n - 1 := 255 - len / 256 % 256]
    }

    lemma PatchedLengths(buf: nat, valid: nat, last: bool, len: nat)
      ensures var bytes := [] + BlockBytes(buf, valid, Block(last, []));
        4 <= |bytes| && Patched(bytes, len) == Lead(buf, valid, last) + Lengths(len)
      ensures |Lengths(len)| == 4
    {
      hide Lead;
    }

    // Bytes that wait in the window, to the output.
    method CopyWaiting(n: nat, ghost used: nat)
      requires Shape() && History(used) && 0 < n <= strstart - blockStart && n <= AvailOut()
      modifies `nextOut, `delivered, `blockStart, output
      ensures Shape() && History(used) && blockStart == old(blockStart) + n && nextOut == old(nextOut) + n
      ensures used == 0 && old(strstart - blockStart) <= |consumed|
      ensures var at := |consumed| - old(strstart - blockStart); delivered == old(delivered) + consumed[at..at + n]
    {
      hide Placed;
      ghost var at := |consumed| - (strstart - blockStart);
      var bytes := window[blockStart..blockStart + n];
      WaitingBytes(n, used);
      Deliver(bytes);
      blockStart := blockStart + n;
    }

    lemma WaitingBytes(n: nat, used: nat)
      requires Shape() && History(used) && 0 < n <= strstart - blockStart
      ensures used == 0 && strstart <= |consumed|
      ensures var at := |consumed| - (strstart - blockStart);
        window[blockStart..blockStart + n] == consumed[at..at + n]
    {
      hide Placed;
    }

    // read_buf(next_out, n): bytes of the input, to the output.
    method CopyInput(n: nat, ghost used: nat)
      requires Shape() && History(used) && blockStart == strstart && n <= AvailIn() && n <= AvailOut()
      modifies `nextOut, `delivered, `nextIn, `consumed, output
      ensures Shape() && History(used + n) && nextIn == old(nextIn) + n && nextOut == old(nextOut) + n
      ensures consumed == old(consumed) + input[old(nextIn)..nextIn]
      ensures delivered == old(delivered) + input[old(nextIn)..nextIn]
    {
      hide Placed;
      var bytes := input[nextIn..nextIn + n];
      Deliver(bytes);
      nextIn := nextIn + n;
      consumed := consumed + bytes;
    }

    // The bytes of a block: what waits in the window first, and then bytes of the
    // input that never see the window.
    method CopyBlock(len0: nat, ghost used: nat) returns (ghost used1: nat)
      requires Shape() && History(used) && strstart - blockStart <= |consumed|
      requires len0 <= strstart - blockStart + AvailIn() && len0 <= AvailOut()
      modifies `nextOut, `delivered, `consumed, `nextIn, `blockStart, output
      ensures Shape() && History(used1) && nextOut == old(nextOut) + len0
      ensures var left := Min(old(strstart - blockStart), len0);
        && blockStart == old(blockStart) + left && nextIn == old(nextIn) + (len0 - left)
        && used1 == used + (len0 - left) && consumed == old(consumed) + input[old(nextIn)..nextIn]
      ensures var at := old(|consumed| - (strstart - blockStart));
        at + len0 <= |consumed| && delivered == old(delivered) + consumed[at..at + len0]
    {
      hide History, Placed;
      ghost var c0, d0 := consumed, delivered;
      ghost var at := |consumed| - (strstart - blockStart);
      var len := len0;
      var left := strstart - blockStart;
      if left != 0 {
        if left > len {
          left := len;
        }
        if left != 0 {
          CopyWaiting(left, used);
        }
        len := len - left;
      }
      assert delivered == d0 + c0[at..at + left];
      used1 := used;
      if len != 0 {
        used1 := used + len;
        CopyInput(len, used);
      }
      ghost var more := input[old(nextIn)..nextIn];
      assert consumed == c0 + more;
      Joined(c0, more, at, left);
    }

    lemma Joined(c0: seq<uint8>, more: seq<uint8>, at: nat, left: nat)
      requires at + left <= |c0| && (more == [] || at + left == |c0|)
      ensures (c0 + more)[at..at + left + |more|] == c0[at..at + left] + more
    {
    }

    // The header and the bytes of one block, straight to the output.
    method HeaderAndBytes(len: nat, last: bool, ghost used: nat) returns (ghost used1: nat)
      requires Shape() && pending == [] && History(used) && strstart - blockStart <= |consumed|
      requires len <= 65535 && len <= strstart - blockStart + AvailIn() && HeaderSize() + len <= AvailOut()
      modifies `pending, `biBuf, `biValid, `nextOut, `delivered, `consumed, `nextIn, `blockStart, output
      ensures Shape() && pending == [] && History(used1) && biBuf == 0 && biValid == 0
      ensures nextOut == old(nextOut) + old(HeaderSize()) + len
      ensures var left := Min(old(strstart - blockStart), len);
        && blockStart == old(blockStart) + left && nextIn == old(nextIn) + (len - left)
        && used1 == used + (len - left) && consumed == old(consumed) + input[old(nextIn)..nextIn]
      ensures var at := old(|consumed| - (strstart - blockStart));
        && at + len <= |consumed|
        && delivered == old(delivered) + BlockBytes(old(biBuf), old(biValid), Block(last, consumed[at..at + len]))
    {
      hide Lead, Lengths, History, HeaderSize, Min, Pow2, Placed;
      ghost var at, d0 := |consumed| - (strstart - blockStart), delivered;
      ghost var lead := Lead(biBuf, biValid, last);
      DirectHeader(len, last);
      used1 := CopyBlock(len, used);
      assert delivered == d0 + (lead + Lengths(len) + consumed[at..at + len]);
    }

    // One block straight to the output.
    method EmitDirect(len: nat, last: bool, ghost used: nat) returns (ghost used1: nat)
      requires Shape() && pending == [] && History(used) && Written() && Open()
      requires len <= 65535 && len <= strstart - blockStart + AvailIn() && HeaderSize() + len <= AvailOut()
      modifies `pending, `biBuf, `biValid, `nextOut, `delivered, `blocks, `consumed, `nextIn, `blockStart, output
      ensures Shape() && pending == [] && History(used1) && Written()
      ensures nextOut == old(nextOut) + old(HeaderSize()) + len
      ensures var left := Min(old(strstart - blockStart), len);
        && blockStart == old(blockStart) + left && nextIn == old(nextIn) + (len - left)
        && used1 == used + (len - left) && consumed == old(consumed) + input[old(nextIn)..nextIn]
      ensures |blocks| == old(|blocks|) + 1 && blocks[..|blocks| - 1] == old(blocks)
      ensures blocks[|blocks| - 1].last == last && |blocks[|blocks| - 1].data| == len
    {
      hide Lead, Lengths, Wrote, History, HeaderSize, Min, Pow2, Placed, BlockBytes;
      ghost var wait, b0, c0 := strstart - blockStart, blocks, consumed;
      ghost var out := delivered + pending;
      WroteWaits();
      used1 := HeaderAndBytes(len, last, used);
      MinBlock(wait, len);
      WroteNext(out, wait, c0, b0, startBuf, startValid, input[old(nextIn)..nextIn], len, last);
      blocks := b0 + [Block(last, consumed[|c0| - wait..|c0| - wait + len])];
      assert delivered + pending == delivered && out == old(delivered);
      assert blocks[..|blocks| - 1] == b0;
    }

    lemma MinBlock(wait: nat, len: nat)
      ensures Min(wait, len) <= wait && Min(wait, len) <= len
      ensures wait + (len - Min(wait, len)) - len == wait - Min(wait, len)
    {
    }

    lemma WroteWaits()
      requires Written()
      ensures strstart - blockStart <= |consumed|
    {
    }

    // What a call that marked the last block leaves behind: nothing.
    ghost predicate Complete()
      reads `input, `nextIn, `strstart, `blockStart, `blocks
    {
      nextIn == |input| && strstart == blockStart && blocks != [] && blocks[|blocks| - 1].last
    }

    // The largest block that can go straight to the output.
    function DirectSize(): int
      requires nextIn <= |input| && blockStart <= strstart && nextOut <= output.Length
      reads `input, `nextIn, `strstart, `blockStart, `biValid, `output, `nextOut
    {
      var most := if Remaining() <= 65535 then Remaining() else 65535;
      if most <= AvailOut() - HeaderSize() then most else AvailOut() - HeaderSize()
    }

    // There is a block worth sending so: a large one, or all there is when asked
    // to flush or to finish.
    predicate Worthwhile(flush: Flush)
      requires nextIn <= |input| && blockStart <= strstart && nextOut <= output.Length
      reads `input, `nextIn, `strstart, `blockStart, `biValid, `output, `nextOut
    {
      && HeaderSize() <= AvailOut()
      && ((pendingSize - 5 <= DirectSize() || wSize <= DirectSize())
          || (!flush.NoFlush? && DirectSize() == Remaining() && (Remaining() != 0 || flush.Finish?)))
    }

    // The blocks of `now` after those of `before`: all but the last of the largest
    // size, and none below `worth` bytes but a last one that takes all there is.
    ghost predicate Grown(before: seq<Block>, now: seq<Block>, worth: int, all: bool) {
      && before <= now
      && (forall i | |before| <= i < |now| - 1 :: |now[i].data| == 65535)
      && (forall i | |before| <= i < |now| :: worth <= |now[i].data| || (i == |now| - 1 && all))
    }

    lemma GrownByOne(before: seq<Block>, now: seq<Block>, more: seq<Block>, worth: int, all: bool, all1: bool)
      requires Grown(before, now, worth, all)
      requires |more| == |now| + 1 && more[..|now|] == now
      requires |before| < |now| ==> |now[|now| - 1].data| == 65535 && !all
      requires worth <= |more[|now|].data| || all1
      ensures Grown(before, more, worth, all1)
    {
      assert forall i | 0 <= i < |now| :: more[i] == more[..|now|][i];
    }

    lemma NoneGrown(now: seq<Block>, worth: int, all: bool)
      ensures Grown(now, now, worth, all)
    {
    }

    // As many blocks as are worth it, straight to the output.
    method DirectBlocks(flush: Flush) returns (last: bool, ghost used: nat)
      requires Valid() && pending == [] && Open()
      modifies `pending, `biBuf, `biValid, `nextOut, `delivered, `blocks, `consumed, `nextIn, `blockStart, output
      ensures Shape() && pending == [] && History(used) && Written()
      ensures old(nextIn) <= nextIn && used == nextIn - old(nextIn)
      ensures consumed == old(consumed) + input[old(nextIn)..nextIn]
      ensures if last then flush.Finish? && Complete() else Open()
      ensures old(nextOut) <= nextOut && Remaining() <= old(Remaining())
      ensures Grown(old(blocks), blocks, Min(pendingSize - 5, wSize), !flush.NoFlush? && Remaining() == 0)
      ensures !last ==> !Worthwhile(flush)
    {
      hide History, Wrote, Placed, Grown, Written, Pow2;
      var minBlock := Min(pendingSize - 5, wSize);
      NoneGrown(blocks, minBlock, !flush.NoFlush? && Remaining() == 0);
      last := false;
      used := 0;
      assert consumed == consumed + input[nextIn..nextIn];
      while true
        invariant Shape() && pending == [] && History(used) && Written() && Open()
        invariant old(nextIn) <= nextIn && used == nextIn - old(nextIn) && old(nextOut) <= nextOut
        invariant consumed == old(consumed) + input[old(nextIn)..nextIn] && Remaining() <= old(Remaining())
        invariant Grown(old(blocks), blocks, minBlock, !flush.NoFlush? && Remaining() == 0)
        invariant old(|blocks|) <= |blocks|
        invariant Remaining() > 0 && AvailOut() > 0 && old(|blocks|) < |blocks| ==> |blocks[|blocks| - 1].data| == 65535
        invariant !flush.Finish? || Remaining() > 0 || |blocks| == old(|blocks|)
        decreases Remaining()
      {
        var len := 65535;
        var have := HeaderSize();
        if AvailOut() < have {
          break;
        }
        have := AvailOut() - have;
        var left := strstart - blockStart;
        if len > left + AvailIn() {
          len := left + AvailIn();
        }
        if len > have {
          len := have;
        }
        if len < minBlock && ((len == 0 && !flush.Finish?) || flush.NoFlush? || len != left + AvailIn()) {
          break;
        }
        last := flush.Finish? && len == left + AvailIn();
        ghost var now, all := blocks, !flush.NoFlush? && Remaining() == 0;
        used := OneDirect(len, last, used, old(nextIn), old(consumed));
        GrownByOne(old(blocks), now, blocks, minBlock, all, !flush.NoFlush? && Remaining() == 0);
        if last {
          break;
        }
      }
    }

    // One block of the loop above, and how much less is left.
    method OneDirect(len: nat, last: bool, ghost used: nat, ghost from: nat, ghost c0: seq<uint8>)
      returns (ghost used1: nat)
      requires Shape() && pending == [] && History(used) && Written() && Open()
      requires from <= nextIn && used == nextIn - from && consumed == c0 + input[from..nextIn]
      requires len <= 65535 && len <= strstart - blockStart + AvailIn() && HeaderSize() + len <= AvailOut()
      modifies `pending, `biBuf, `biValid, `nextOut, `delivered, `blocks, `consumed, `nextIn, `blockStart, output
      ensures Shape() && pending == [] && History(used1) && Written() && old(nextOut) <= nextOut
      ensures from <= nextIn && used1 == nextIn - from && consumed == c0 + input[from..nextIn]
      ensures if last then blocks != [] && blocks[|blocks| - 1].last else Open()
      ensures Remaining() == old(Remaining()) - len && AvailOut() == old(AvailOut() - HeaderSize()) - len
      ensures |blocks| == old(|blocks|) + 1 && blocks[..|blocks| - 1] == old(blocks)
      ensures |blocks[|blocks| - 1].data| == len
    {
      hide History, Wrote, Placed;
      ghost var at := nextIn;
      used1 := EmitDirect(len, last, used);
      assert input[from..nextIn] == input[from..at] + input[at..nextIn];
    }

    // What was just copied is the end of the input.
    ghost predicate JustCopied(used: nat)
      reads `input, `nextIn, `consumed
    {
      && used <= nextIn <= |input| && used <= |consumed|
      && forall i | nextIn - used <= i < nextIn :: input[i] == consumed[|consumed| - nextIn + i]
    }

    // The upper half of the window moves down over the lower.
    method SlideDown()
      requires window.Length == 2 * wSize && wSize <= strstart <= window.Length
      modifies `strstart, `matches, `insert, window
      ensures strstart == old(strstart) - wSize && insert == Min(old(insert), strstart)
      ensures matches == if old(matches) < 2 then old(matches) + 1 else old(matches)
      ensures forall i | 0 <= i < strstart :: window[i] == old(window[wSize + i])
    {
      hide Placed;
      strstart := strstart - wSize;
      forall i | 0 <= i < strstart {
        window[i] := window[wSize + i];
      }
      if matches < 2 {
        matches := matches + 1;
      }
      if insert > strstart {
        insert := strstart;
      }
    }

    // Bytes of the input behind those in the window.
    method AppendInput(from: nat, n: nat)
      requires window.Length == 2 * wSize && from + n <= |input| && strstart + n <= window.Length && insert <= wSize
      modifies `strstart, `insert, window
      ensures strstart == old(strstart) + n && insert == Min(old(insert) + n, wSize)
      ensures forall i | 0 <= i < strstart ::
        window[i] == if i < old(strstart) then old(window[i]) else input[from + (i - old(strstart))]
    {
      hide Placed;
      forall i | 0 <= i < n {
        window[strstart + i] := input[from + i];
      }
      strstart := strstart + n;
      insert := insert + Min(n, wSize - insert);
    }

    // The window, after `used` bytes went past it.
    method UpdateWindow(used: nat)
      requires Shape() && History(used) && Written() && JustCopied(used) && pending == []
      modifies `strstart, `blockStart, `matches, `insert, `highWater, window
      ensures Shape() && History(0) && Written() && pending == []
      ensures strstart - blockStart == old(strstart - blockStart)
      ensures highWater == if old(highWater) < strstart then strstart else old(highWater)
      ensures strstart ==
        if used >= wSize then wSize
        else old(strstart) + used - if 0 < used && old(window.Length - strstart) <= used then wSize else 0
    {
      hide Wrote, Placed;
      if used != 0 {
        if used >= wSize {
          Supplant();
        } else {
          Extend(used);
        }
        blockStart := strstart;
      }
      if highWater < strstart {
        highWater := strstart;
      }
    }

    // What went past the window, behind what is in it.
    method Extend(used: nat)
      requires Shape() && History(used) && JustCopied(used) && 0 < used < wSize
      modifies `strstart, `matches, `insert, window
      ensures insert <= wSize && History(0)
      ensures strstart == old(strstart) + used - if old(window.Length - strstart) <= used then wSize else 0
    {
      hide Placed;
      if window.Length - strstart <= used {
        SlideDown();
      }
      AppendInput(nextIn - used, used);
    }

    // The end of the input instead of what was in the window.
    method Supplant()
      requires window.Length == 2 * wSize && wSize <= nextIn <= |input|
      modifies `strstart, `matches, `insert, window
      ensures strstart == wSize && insert == strstart && matches == 2
      ensures forall i | 0 <= i < strstart :: window[i] == input[nextIn - wSize + i]
    {
      hide Placed;
      matches := 2;
      forall i | 0 <= i < wSize {
        window[i] := input[nextIn - wSize + i];
      }
      strstart := wSize;
      insert := strstart;
    }

    // The rest of the input, or as much as fits, into the window.
    method FillWindow() returns (ghost n: nat)
      requires Valid() && pending == []
      modifies `strstart, `blockStart, `matches, `insert, `highWater, `nextIn, `consumed, window
      ensures Valid() && pending == [] && nextIn == old(nextIn) + n <= |input|
      ensures highWater == if old(highWater) < strstart then strstart else old(highWater)
      ensures consumed == old(consumed) + input[old(nextIn)..nextIn]
      ensures strstart - blockStart == old(strstart - blockStart) + n
      ensures AvailIn() > 0 ==> strstart - blockStart >= wSize
      ensures var full := old(AvailIn() > window.Length - strstart && blockStart >= wSize);
        && n == Min(old(AvailIn()), old(window.Length - strstart) + if full then wSize else 0)
        && strstart == old(strstart) + n - if full then wSize else 0
    {
      hide Wrote, History, Placed;
      var have := window.Length - strstart;
      if AvailIn() > have && blockStart >= wSize {
        MakeRoom();
        have := have + wSize;
      }
      if have > AvailIn() {
        have := AvailIn();
      }
      n := have;
      TakeIn(have);
      if highWater < strstart {
        highWater := strstart;
      }
    }

    method MakeRoom()
      requires Valid() && blockStart >= wSize
      modifies `strstart, `blockStart, `matches, `insert, window
      ensures Valid() && strstart == old(strstart) - wSize && blockStart == old(blockStart) - wSize
    {
      hide Wrote, Placed;
      blockStart := blockStart - wSize;
      SlideDown();
    }

    // read_buf(window + strstart, n)
    method TakeIn(n: nat)
      requires Valid() && n <= AvailIn() && n <= window.Length - strstart
      modifies `strstart, `insert, `nextIn, `consumed, window
      ensures Valid() && nextIn == old(nextIn) + n && strstart == old(strstart) + n
      ensures consumed == old(consumed) + input[old(nextIn)..nextIn]
    {
      hide Wrote, Placed;
      ghost var c0 := consumed;
      ghost var more := input[nextIn..nextIn + n];
      WroteMore(delivered + pending, strstart - blockStart, c0, blocks, startBuf, startValid, more);
      if n != 0 {
        AppendInput(nextIn, n);
        nextIn := nextIn + n;
      }
      consumed := consumed + more;
    }

    // There is no reason yet to write what waits in the window.
    predicate Idle(flush: Flush)
      requires nextIn <= |input| && blockStart <= strstart
      reads `input, `nextIn, `strstart, `blockStart
    {
      && strstart - blockStart < wSize
      && (flush.NoFlush? || AvailIn() > 0 || (Flushes(flush) && strstart == blockStart))
    }

    // The most that fits in a block through the pending buffer.
    function PendingRoom(): int
      reads `biValid
    {
      if pendingSize - HeaderSize() <= 65535 then pendingSize - HeaderSize() else 65535
    }

    // The window has a large block, or with all input taken the rest of it.
    predicate WorthPending(flush: Flush)
      requires nextIn <= |input| && blockStart <= strstart
      reads `input, `nextIn, `strstart, `blockStart, `biValid
    {
      || PendingRoom() <= strstart - blockStart
      || wSize <= strstart - blockStart
      || (!flush.NoFlush? && AvailIn() == 0 && (strstart != blockStart || flush.Finish?))
    }

    // A block from the window into the pending buffer, if it is worth it.
    method PendingBlock(flush: Flush) returns (last: bool)
      requires Valid() && pending == [] && Open()
      modifies `pending, `biBuf, `biValid, `nextOut, `delivered, `blocks, `blockStart, output
      ensures Valid() && (if last then flush.Finish? && Complete() else Open())
      ensures pending != [] ==> AvailOut() == 0
      ensures Remaining() <= old(Remaining())
      ensures last || Remaining() < old(Remaining()) || Idle(flush)
      ensures if old(WorthPending(flush)) then
                && |blocks| == |old(blocks)| + 1 && old(blocks) < blocks
                && |blocks[|blocks| - 1].data| == Min(old(strstart - blockStart), old(PendingRoom()))
                && (blocks[|blocks| - 1].last <==> flush.Finish? && Remaining() == 0)
              else blocks == old(blocks)
    {
      hide History, Written, Placed;
      last := false;
      var have := Min(pendingSize - HeaderSize(), 65535);
      var minBlock := Min(have, wSize);
      var left := strstart - blockStart;
      if left >= minBlock || ((left != 0 || flush.Finish?) && !flush.NoFlush? && AvailIn() == 0 && left <= have) {
        var len := Min(left, have);
        last := flush.Finish? && AvailIn() == 0 && len == left;
        StoreWaiting(len, last);
        FlushPending();
      }
    }

    // One block into the pending buffer.
    method StoreWaiting(len: nat, last: bool)
      requires Valid() && pending == [] && Open()
      requires len <= strstart - blockStart && len <= 65535 && HeaderSize() + len <= pendingSize
      modifies `pending, `biBuf, `biValid, `blocks, `blockStart
      ensures Valid() && blockStart == old(blockStart) + len
      ensures |blocks| == old(|blocks|) + 1 && blocks[..|blocks| - 1] == old(blocks)
      ensures blocks[|blocks| - 1].last == last
      ensures pending == BlockBytes(old(biBuf), old(biValid), blocks[|blocks| - 1])
      ensures |blocks[|blocks| - 1].data| == len
    {
      hide Wrote, Lead, Lengths, Placed;
      WroteWaits();
      ghost var wait, b0 := strstart - blockStart, blocks;
      ghost var buf, valid, out := biBuf, biValid, delivered + pending;
      var data := window[blockStart..blockStart + len];
      ghost var block := Block(last, data);
      assert data == (consumed + [])[|consumed| - wait..|consumed| - wait + len];
      assert consumed == consumed + [];
      TrStoredBlock(data, last);
      blockStart := blockStart + len;
      blocks := b0 + [block];
      WroteNext(out, wait, consumed, b0, startBuf, startValid, [], len, last);
      assert delivered + pending == out + BlockBytes(buf, valid, block);
      assert blocks[..|blocks| - 1] == b0;
      SmallPowers();
      BlockSize(buf, valid, block);
    }

    lemma BlockSize(buf: nat, valid: nat, block: Block)
      requires valid < 8
      ensures |BlockBytes(buf, valid, block)| == (valid + 42) / 8 + |block.data|
    {
    }

    // One call. Each returns with every byte it took from the input in a block
    // or waiting in the window, and with the last block only when none is left.
    // A call that has more to do has made progress, and waits for room.
    method DeflateStored(flush: Flush) returns (state: BlockState)
      requires Valid() && pending == [] && Open()
      modifies `pending, `biBuf, `biValid, `nextOut, `delivered, `blocks, `consumed, `nextIn, `blockStart, output
      modifies `strstart, `matches, `insert, `highWater, window
      ensures Valid() && old(nextIn) <= nextIn
      ensures consumed == old(consumed) + input[old(nextIn)..nextIn]
      ensures if state.FinishDone? || state.FinishStarted? then flush.Finish? && Complete() else Open()
      ensures state.FinishDone? ==> pending == []
      ensures pending != [] ==> AvailOut() == 0
      ensures state.NeedMore? ==>
        || Remaining() < old(Remaining())
        || (flush.NoFlush? && AvailIn() == 0 && Remaining() < wSize)
      ensures state.BlockDone? ==> Flushes(flush) && pending == [] && nextIn == |input| && strstart == blockStart
    {
      hide History, Written, JustCopied, Placed;
      var used := AvailIn();
      var last, _ := DirectBlocks(flush);
      used := used - AvailIn();
      ghost var at := nextIn;
      Copied(old(consumed), used);
      UpdateWindow(used);
      if last {
        return FinishDone;
      }
      if Flushes(flush) && AvailIn() == 0 && strstart == blockStart {
        return BlockDone;
      }
      last := FillAndStore(flush);
      assert input[old(nextIn)..nextIn] == input[old(nextIn)..at] + input[at..nextIn];
      state := if last then FinishStarted else NeedMore;
    }

    // What could not go straight to the output, into the window and from there
    // into the pending buffer.
    method FillAndStore(flush: Flush) returns (last: bool)
      requires Valid() && pending == [] && Open()
      modifies `pending, `biBuf, `biValid, `nextOut, `delivered, `blocks, `consumed, `nextIn, `blockStart, output
      modifies `strstart, `matches, `insert, `highWater, window
      ensures Valid() && old(nextIn) <= nextIn && consumed == old(consumed) + input[old(nextIn)..nextIn]
      ensures if last then flush.Finish? && Complete() else Open()
      ensures pending != [] ==> AvailOut() == 0
      ensures last || Remaining() < old(Remaining()) ||
        (AvailIn() == 0 && Remaining() < wSize && (flush.NoFlush? || (Flushes(flush) && old(Remaining()) == 0)))
      ensures Remaining() <= old(Remaining())
    {
      hide History, Written, Placed;
      ghost var n := FillWindow();
      last := PendingBlock(flush);
    }

    lemma Copied(c0: seq<uint8>, used: nat)
      requires used <= nextIn <= |input| && consumed == c0 + input[nextIn - used..nextIn]
      ensures JustCopied(used)
    {
    }

    // deflate after block_done: an empty block, which a decoder can find again,
    // and for a full flush a window that begins anew.
    method SyncMarker(full: bool)
      requires Valid() && pending == [] && Open() && strstart == blockStart
      modifies `pending, `biBuf, `biValid, `nextOut, `delivered, `blocks, `blockStart, `strstart, `insert, output
      ensures Valid() && Open() && Remaining() == old(Remaining()) && nextIn == old(nextIn)
      ensures delivered + pending == old(delivered) + BlockBytes(old(biBuf), old(biValid), Block(false, []))
      ensures strstart == blockStart == if full then 0 else old(strstart)
      ensures full ==> insert == 0
      ensures pending != [] ==> AvailOut() == 0
    {
      hide Written, History, Placed;
      SmallHeader();
      EmptyBlock();
      if full {
        Forget();
      }
      FlushPending();
    }

    method Forget()
      requires Valid() && strstart == blockStart
      modifies `strstart, `blockStart, `insert
      ensures Valid() && strstart == blockStart == insert == 0
    {
      hide Wrote, Placed;
      strstart, blockStart, insert := 0, 0, 0;
    }

    lemma SmallHeader()
      requires Shape()
      ensures HeaderSize() <= 6
    {
    }

    method EmptyBlock()
      requires Valid() && pending == [] && Open() && HeaderSize() <= pendingSize
      modifies `pending, `biBuf, `biValid, `blocks, `blockStart
      ensures Valid() && Open() && blockStart == old(blockStart)
      ensures pending == BlockBytes(old(biBuf), old(biValid), Block(false, []))
    {
      hide Placed;
      StoreWaiting(0, false);
    }

    // A decoder that begins at the bit where the first block does gets back all
    // the input but what still waits in the window.
    lemma Recovered()
      requires Valid()
      ensures Decode(delivered + pending, startValid) == Some(blocks)
      ensures strstart - blockStart <= |consumed|
      ensures Payload(blocks) + window[blockStart..strstart] == consumed
    {
      hide Encoded, Payload, Placed, Decode;
      RoundTrip(startBuf, startValid, blocks);
      WaitingRest();
    }

    lemma WaitingRest()
      requires Valid()
      ensures strstart - blockStart <= |consumed| && strstart <= |consumed|
      ensures window[blockStart..strstart] == consumed[|consumed| - (strstart - blockStart)..]
    {
      hide Encoded, Payload, Placed, Written;
      WroteWaits();
    }
  }
}
