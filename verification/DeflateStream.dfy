// deflate(): runs of calls on a raw deflate stream, with input and output
// space supplied between calls.
module DeflateStream {
  import opened Basics
  import opened Lz77
  import opened DeflateHash
  import opened DeflateState
  import opened DeflateModes
  import opened DeflateBlocks
  import opened DeflateTurns
  import DeflateFast
  import DeflateSlow

  datatype Status = Ok | StreamEnd | BufError | StreamError

  // The flush codes of the interface, and -2 and -1 for no previous call.
  function Code(flush: Flush): int {
    match flush
    case NoFlush => 0
    case PartialFlush => 1
    case SyncFlush => 2
    case FullFlush => 3
    case Finish => 4
    case BlockFlush => 5
  }

  // BlockFlush ranks between NoFlush and PartialFlush.
  function Rank(code: int): int {
    code * 2 - (if code > 4 then 9 else 0)
  }

  lemma Ranks()
    ensures Rank(-2) < Rank(-1) < Rank(Code(NoFlush)) < Rank(Code(BlockFlush)) < Rank(Code(PartialFlush))
    ensures Rank(Code(PartialFlush)) < Rank(Code(SyncFlush)) < Rank(Code(FullFlush)) < Rank(Code(Finish))
    ensures Code(NoFlush) == 0 && Code(PartialFlush) == 1 && Code(SyncFlush) == 2 && Code(FullFlush) == 3
    ensures Code(Finish) == 4 && Code(BlockFlush) == 5
  {
  }

  // The empty block that ends a flush, so that the output so far ends on a byte.
  function Marker(flush: Flush): seq<Given> {
    match flush
    case PartialFlush => [Align]
    case SyncFlush => [EmptyStored]
    case FullFlush => [EmptyStored]
    case _ => []
  }

  ghost predicate Inv(s: Deflate)
    reads s`h, s`written, s`highWater, s`strstart, s`lookahead, s`insert, s`insH, s`matchStart, s`matchAt,
      s`matchLength,
      s`prevLength, s`nextIn, s`fed, s`sent, s`symBuf, s`blockStart, s`floor, s`mark, s`turns,
      s`matchAvailable, s.window, s.head, s.prev
  {
    if s.lazy then DeflateSlow.SlowInv(s) else DeflateFast.FastInv(s)
  }

  // What holds between any two calls: the last block has been sent exactly if
  // the end has been seen.
  ghost predicate Ready(s: Deflate)
    reads s, s.window, s.head, s.prev
  {
    && Inv(s)
    && if s.finished then
         s.Ended() && s.symBuf == [] && s.lookahead == 0 && s.StandsFor(s.h.input)
       else
         s.Going()
  }

  // The caller appends input and replaces the output buffer.
  method Supply(s: Deflate, more: seq<byte>, room: nat)
    requires Ready(s)
    modifies s`nextIn, s`fed, s`availOut, s`granted
    ensures Ready(s) && s.fed == old(s.fed) + more && s.nextIn == old(s.nextIn) + more && s.availOut == room
  {
    hide DeflateFast.FastInv, DeflateSlow.SlowInv, Open, Closed, Deflate.StandsFor;
    if s.lazy {
      DeflateSlow.Append(s, more);
    } else {
      DeflateFast.Append(s, more);
    }
    s.availOut := room;
    s.granted := s.delivered + room;
  }

  // deflateInit2_: nothing read and nothing sent.
  method DeflateInit(
    wBits: nat, shift: bv6, mask: bv32, maxChain: nat, maxLazy: nat, good: nat, nice: nat, filtered: bool, lazy: bool,
    symEnd: nat)
    returns (s: Deflate)
    requires 9 <= wBits <= 15 && HashParameters(shift, mask)
    requires 4 <= maxChain && nice <= MAX_MATCH && 1 < symEnd
    ensures fresh(s) && fresh(s.window) && fresh(s.head) && fresh(s.prev) && Ready(s) && s.lazy == lazy
    ensures s.fed == [] && s.given == [] && s.turns == [] && s.floor == 0 && !s.finished
  {
    hide Deflate.Core, Deflate.Cursor, Explains, Follows;
    s := new Deflate(wBits, shift, mask, maxChain, maxLazy, good, nice, filtered, lazy, symEnd);
    assert s.sent + s.symBuf == [];
  }

  method Compress(s: Deflate, flush: Flush) returns (result: BlockState)
    requires Ready(s) && !s.finished
    modifies s, s.window, s.head, s.prev
    ensures Inv(s) && s.fed == old(s.fed) && s.finished == old(s.finished)
    ensures CutBlocks(old(s.given), s.given, s.symEnd)
    ensures s.floor == old(s.floor) && s.mark == old(s.mark)
    ensures s.granted == old(s.granted) && s.lastFlush == old(s.lastFlush)
    ensures NewTurns(old(s.turns), s.turns, s.floor, s.fed)
    ensures result == NeedMore ==> s.availOut == 0 || (flush == NoFlush && s.nextIn == [])
    ensures result == FinishStarted ==> flush == Finish && s.availOut == 0
    ensures result == FinishDone ==> flush == Finish && s.pending == 0
    ensures result == BlockDone ==> Flushes(flush)
    ensures result != NeedMore ==> s.AllSent() && s.lookahead == 0 && (s.lazy ==> !s.matchAvailable)
    ensures if flush == Finish && result != NeedMore then s.Ended() else s.Going()
  {
    hide DeflateSlow.SlowInv, DeflateFast.FastInv, Deflate.Going, Deflate.Ended, NewTurns, Deflate.AllSent;
    if s.lazy {
      result := DeflateSlow.DeflateSlow(s, flush);
    } else {
      result := DeflateFast.DeflateFast(s, flush);
    }
  }

  // Stands for _tr_align and for _tr_stored_block without data, which leave
  // some number of bytes in pending.
  method EmptyBlock(s: Deflate, marker: Given)
    requires s.Going() && !marker.Block?
    modifies s`pending, s`given, s`produced
    ensures s.Going() && s.given == old(s.given) + [marker]
  {
    var bytes :| 0 <= bytes;
    GiveNext(s.given, s.sent, marker);
    assert s.sent + [] == s.sent;
    s.given := s.given + [marker];
    s.pending := s.pending + bytes;
    s.produced := s.produced + bytes;
  }

  // The full flush: nothing sent from here on refers to anything before.
  method Forget(s: Deflate)
    requires Inv(s) && s.AllSent() && s.lookahead == 0 && (s.lazy ==> !s.matchAvailable)
    modifies s.head, s`strstart, s`blockStart, s`insert, s`h, s`matchAt, s`floor, s`mark
    ensures Inv(s) && s.AllSent() && s.floor == |s.fed| && s.mark == |s.sent|
  {
    hide Deflate.Core, Deflate.Cursor, Deflate.FedFrom, Explains, DeflateSlow.TrueMatch, Follows, GreedyRun, LazyRun,
      Lazy, Expand, Encodable;
    s.AllRead();
    s.ForgetHistory();
    SentAnew(s.sent, s.fed);
  }

  lemma SentAnew(sent: seq<Symbol>, fed: seq<byte>)
    ensures Expand(sent[|sent|..]) == Some(fed[|fed|..])
  {
    assert sent[|sent|..] == [] && fed[|fed|..] == [];
  }

  // What deflate does after a block has been completed on request.
  method AfterBlock(s: Deflate, flush: Flush) returns (stop: bool)
    requires Inv(s) && s.AllSent() && s.lookahead == 0 && (s.lazy ==> !s.matchAvailable)
    requires Flushes(flush) && s.Going()
    modifies s.head, s`strstart, s`blockStart, s`insert, s`h, s`matchAt, s`pending, s`availOut, s`given, s`floor,
      s`mark, s`produced, s`delivered
    ensures Inv(s) && s.AllSent() && s.Going()
    ensures s.given == old(s.given) + Marker(flush)
    ensures if flush == FullFlush then s.floor == |s.fed| && s.mark == |s.sent|
            else s.floor == old(s.floor) && s.mark == old(s.mark)
    ensures stop <==> s.availOut == 0
    ensures s.pending != 0 ==> s.availOut == 0
  {
    hide Deflate.AllSent, Deflate.Going, Inv;
    assert s.given + [] == s.given;
    if flush == PartialFlush {
      EmptyBlock(s, Align);
    } else if flush != BlockFlush {
      EmptyBlock(s, EmptyStored);
      if flush == FullFlush {
        Forget(s);
      }
    }
    s.FlushPending();
    stop := s.availOut == 0;
  }

  // The state is FINISH_STATE from the call on that has seen the end.
  method CompressAndFinish(s: Deflate, flush: Flush) returns (result: BlockState)
    requires Ready(s) && !s.finished
    modifies s, s.window, s.head, s.prev
    ensures Ready(s) && s.fed == old(s.fed)
    ensures s.floor == old(s.floor) && s.mark == old(s.mark)
    ensures s.granted == old(s.granted) && s.lastFlush == old(s.lastFlush)
    ensures NewTurns(old(s.turns), s.turns, s.floor, s.fed)
    ensures result == NeedMore ==> s.availOut == 0 || (flush == NoFlush && s.nextIn == [])
    ensures result == FinishStarted ==> flush == Finish && s.availOut == 0
    ensures result == FinishDone ==> flush == Finish && s.pending == 0
    ensures result == BlockDone ==> Flushes(flush)
    ensures result != NeedMore ==> s.AllSent() && s.lookahead == 0 && (s.lazy ==> !s.matchAvailable)
    ensures s.finished <==> flush == Finish && result != NeedMore
  {
    hide Deflate.Core, Deflate.Cursor, Deflate.FedFrom, Explains, DeflateSlow.TrueMatch, DeflateSlow.Parsed,
      DeflateFast.Parsed, Deflate.Going, Deflate.Ended, NewTurns, Expand;
    result := Compress(s, flush);
    if result == FinishStarted || result == FinishDone {
      s.AllSentIsAllRead();
      s.finished := true;
    }
  }

  // A flush that has been completed: everything supplied is in the blocks sent,
  // the last of them is the empty one, and after a full flush nothing sent later
  // needs what came before.
  ghost predicate Flushed(s: Deflate, flush: Flush)
    reads s
  {
    && s.AllSent() && s.pending == 0
    && |Marker(flush)| <= |s.given| && s.given[|s.given| - |Marker(flush)|..] == Marker(flush)
    && (flush == FullFlush ==> s.floor == |s.fed| && s.mark == |s.sent|)
  }

  // When the end has been seen and nothing more was supplied, all is sent.
  lemma AtEnd(s: Deflate)
    requires Ready(s) && s.finished && s.nextIn == []
    ensures s.AllSent() && s.Ended()
  {
    hide Deflate.Core, Deflate.Cursor, Deflate.FedFrom, Explains, DeflateSlow.TrueMatch, DeflateSlow.Parsed,
      DeflateFast.Parsed, Deflate.Ended;
    s.AllSentIsAllRead();
  }

  // Start a new block or continue the current one; true if the call ends here.
  method Continue(s: Deflate, flush: Flush) returns (early: bool)
    requires Ready(s) && !s.finished && s.availOut != 0
    modifies s, s.window, s.head, s.prev
    ensures Ready(s) && s.fed == old(s.fed) && s.granted == old(s.granted)
    ensures NewTurns(old(s.turns), s.turns, old(s.floor), s.fed)
    ensures flush != FullFlush ==> s.floor == old(s.floor) && s.mark == old(s.mark)
    ensures s.lastFlush == if early && s.availOut == 0 then -1 else old(s.lastFlush)
    ensures early ==> s.availOut == 0 || (flush == NoFlush && s.nextIn == [])
    ensures !early ==> s.nextIn == []
    ensures !early && flush == Finish ==> s.finished && s.pending == 0 && s.AllSent()
    ensures !early && flush != Finish ==> Flushed(s, flush) && s.availOut != 0
  {
    hide Inv, Deflate.Going, Deflate.Ended, NewTurns, Deflate.StandsFor;
    var result := CompressAndFinish(s, flush);
    early := result == NeedMore || result == FinishStarted;
    if result == BlockDone {
      early := AfterBlock(s, flush);
    }
    if early && s.availOut == 0 {
      s.lastFlush := -1;
    }
  }

  // There is nothing that a call could do: no room for output; no input, and no
  // more flushing asked for than by the call before; or input after the end.
  ghost predicate Idle(s: Deflate, flush: Flush)
    reads s
  {
    || s.availOut == 0
    || (s.pending == 0 && s.nextIn == [] && Rank(Code(flush)) <= Rank(s.lastFlush) && flush != Finish)
    || (s.finished && s.nextIn != [] && s.pending < s.availOut)
  }

  // One call of deflate. Z_OK is returned only when the output is full or all the
  // input has been taken, and with room left after a flush only when the flush
  // is complete. Z_STREAM_END is returned only when every byte ever supplied is
  // in the blocks sent, the last of which and no other says that it is the last,
  // and nothing is left to write.
  method Call(s: Deflate, flush: Flush) returns (status: Status)
    requires Ready(s)
    modifies s, s.window, s.head, s.prev
    ensures Ready(s) && s.fed == old(s.fed) && s.granted == old(s.granted)
    ensures NewTurns(old(s.turns), s.turns, old(s.floor), s.fed)
    ensures flush != FullFlush ==> s.floor == old(s.floor) && s.mark == old(s.mark)
    ensures status == StreamEnd ==> flush == Finish && s.pending == 0 && s.AllSent() && s.Ended()
    ensures status == Ok ==> s.availOut == 0 || (flush != Finish && s.nextIn == [])
    ensures status == Ok && s.availOut != 0 && Flushes(flush) ==> Flushed(s, flush)
    ensures status == Ok ==> s.lastFlush == if s.availOut == 0 then -1 else Code(flush)
    ensures status == StreamError <==> old(s.finished) && flush != Finish
    ensures status == BufError <==> !(old(s.finished) && flush != Finish) && old(Idle(s, flush))
    ensures status == BufError || status == StreamError ==>
      s.sent == old(s.sent) && s.given == old(s.given) && s.nextIn == old(s.nextIn)
    ensures old(s.finished) ==>
      s.finished && s.sent == old(s.sent) && s.given == old(s.given) && s.nextIn == old(s.nextIn)
  {
    hide Inv, Deflate.Going, Deflate.Ended, NewTurns, Deflate.StandsFor, Flushed;
    NoNewTurns(s.turns, s.floor, s.fed);
    if s.finished && flush != Finish {
      return StreamError;
    }
    if s.availOut == 0 {
      return BufError;
    }
    var oldFlush := s.lastFlush;
    s.lastFlush := Code(flush);
    if s.pending != 0 {
      s.FlushPending();
      if s.availOut == 0 {
        s.lastFlush := -1;
        return Ok;
      }
    } else if s.nextIn == [] && Rank(Code(flush)) <= Rank(oldFlush) && flush != Finish {
      return BufError;
    }
    if s.finished && s.nextIn != [] {
      return BufError;
    }
    if s.nextIn != [] || s.lookahead != 0 || (flush != NoFlush && !s.finished) {
      var early := Continue(s, flush);
      if early {
        return Ok;
      }
    }
    if flush != Finish {
      return Ok;
    }
    AtEnd(s);
    return StreamEnd;
  }
}
