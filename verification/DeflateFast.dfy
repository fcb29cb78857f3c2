// deflate_fast: greedy matching, used at levels 1 to 3.
module DeflateFast {
  import opened Basics
  import opened Lz77
  import opened DeflateHash
  import opened DeflateDictionary
  import opened DeflateState
  import opened DeflateModes
  import opened DeflateBlocks
  import opened DeflateSearch
  import opened DeflateTurns

  // Between two steps, the tallied symbols stand for all the input before
  // strstart, no match is pending, and the symbols are those that greedy
  // matching makes of the turns taken.
  ghost predicate FastInv(s: Deflate)
    reads s`h, s`written, s`highWater, s`strstart, s`lookahead, s`insert, s`insH, s`matchStart, s`matchAt,
      s`matchLength,
      s`prevLength, s`nextIn, s`fed, s`sent, s`symBuf, s`blockStart, s`floor, s`mark, s`turns, s.window, s.head, s.prev
  {
    && s.Valid() && s.Fed()
    && s.prevLength == MIN_MATCH - 1
    && s.matchLength < MIN_MATCH
    && s.Tallied(s.h.base + s.strstart)
    && s.blockStart <= s.strstart
    && |s.symBuf| < s.symEnd
    && Parsed(s)
  }

  ghost predicate Parsed(s: Deflate)
    requires s.Shape()
    reads s`turns, s`h, s`floor, s`strstart, s`sent, s`symBuf
  {
    s.Followed() && GreedyRun(s.turns, s.TheSettings(), s.sent + s.symBuf, s.h.base + s.strstart)
  }

  // A match found at strstart, if any.
  ghost predicate Searched(s: Deflate)
    reads s, s.window, s.head, s.prev
  {
    && s.Entered() && s.MatchIndexed()
    && (s.matchLength >= MIN_MATCH ==>
          && MIN_MATCH <= s.lookahead && s.matchLength <= s.lookahead && s.matchLength <= MAX_MATCH
          && s.matchStart < s.strstart && s.strstart - s.matchStart <= s.MaxDist()
          && s.MatchFound(s.matchStart, s.matchLength))
  }

  // The longest match at strstart of those that may be tried.
  method Search(s: Deflate)
    requires s.Valid() && s.prevLength == MIN_MATCH - 1 && s.matchLength < MIN_MATCH
    requires s.strstart + MAX_MATCH < s.written && 1 <= s.lookahead && s.Followed()
    modifies s`insH, s`h, s`matchStart, s`matchAt, s`matchLength, s.head, s.prev
    ensures Searched(s) && s.Followed()
    ensures s.h.input == old(s.h.input) && s.h.base == old(s.h.base)
    ensures s.h.inserted == old(s.h.inserted) + Itself(TurnAt(s))
    ensures GreedyTurn(TurnAt(s), s.TheSettings())
    ensures MIN_MATCH <= s.lookahead ==> s.h.base + s.strstart in s.h.inserted
  {
    hide Deflate.Core, Deflate.Cursor, HashParameters, Repeats, Slot, Follows, Tried, Snapshot, NoneLonger,
      Deflate.Entered, Deflate.Searchable, Deflate.Candidate, Deflate.MatchIndexed;
    s.CoreShape();
    var hashHead := s.Enter();
    if hashHead != 0 && s.strstart - hashHead <= s.MaxDist() {
      s.matchLength := s.LongestMatch(hashHead);
    }
    s.SnapshotHere(s.matchLength, s.matchLength);
  }

  // The turn at strstart, once the search has been made.
  ghost function TurnAt(s: Deflate): Turn
    reads s, s.head, s.prev
  {
    s.TurnHere(s.matchLength, s.matchLength)
  }

  // Insert every string the match covers, short of its first, which is in.
  method InsertCovered(s: Deflate)
    requires s.Core() && s.MatchIndexed() && s.insert == 0
    requires MIN_MATCH <= s.matchLength && MIN_MATCH <= s.lookahead
    requires s.strstart + s.matchLength + s.lookahead == s.DataEnd()
    requires s.h.end == s.h.base + s.strstart + 1 && s.RolledAt(s.strstart + 1)
    modifies s`insH, s`h, s`strstart, s`matchLength, s.head, s.prev
    ensures s.Valid() && s.matchLength == 0
    ensures s.strstart == old(s.strstart + s.matchLength)
    ensures s.h.input == old(s.h.input) && s.h.base == old(s.h.base)
    ensures Grown(old(s.h.inserted), s.h.inserted, old(s.h.base + s.strstart) + 1, s.h.base + s.strstart)
  {
    hide Deflate.Core, Deflate.WindowHolds, Deflate.Tables, Deflate.RolledAt, OnChain, ChainAt, HashParameters, Slot,
      Grown;
    s.CoreShape();
    ghost var from, all := s.h.base + s.strstart + 1, s.h.inserted;
    GrownNone(all, from, from);
    s.matchLength := s.matchLength - 1;
    while true
      invariant s.Core() && s.h.input == old(s.h.input) && s.h.base == old(s.h.base)
      invariant Grown(all, s.h.inserted, from, s.h.base + s.strstart + 1)
      invariant 1 <= s.matchLength
      invariant s.strstart + s.matchLength + 1 == old(s.strstart + s.matchLength)
      invariant s.h.end == s.h.base + s.strstart + 1 && s.RolledAt(s.strstart + 1)
      decreases s.matchLength
    {
      s.strstart := s.strstart + 1;
      GrownNext(all, s.h.inserted, from, s.h.base + s.strstart);
      s.Insert(s.strstart);
      s.matchLength := s.matchLength - 1;
      if s.matchLength == 0 {
        break;
      }
    }
    s.strstart := s.strstart + 1;
    assert s.RolledAt(s.strstart);
  }

  // Pass over the match without inserting, and start the hash again after it.
  method SkipCovered(s: Deflate)
    requires s.Core() && s.MatchIndexed() && s.insert == 0
    requires s.strstart + s.matchLength + s.lookahead == s.DataEnd()
    requires s.strstart + s.matchLength + 1 < 2 * s.wSize
    requires s.h.end <= s.h.base + s.strstart + s.matchLength
    modifies s`insH, s`strstart, s`matchLength
    ensures s.Valid() && s.matchLength == 0
    ensures s.strstart == old(s.strstart + s.matchLength)
  {
    hide Deflate.Tables, HashParameters, UpdateHash, Rolled;
    s.strstart := s.strstart + s.matchLength;
    s.matchLength := 0;
    StartRolled(s.window[s.strstart], s.window[s.strstart + 1], s.hashShift, s.hashMask);
    s.insH := UpdateHash(s.window[s.strstart] as bv32, s.window[s.strstart + 1], s.hashShift, s.hashMask);
  }

  method EmitMatch(s: Deflate) returns (bflush: bool)
    requires Searched(s) && s.matchLength >= MIN_MATCH
    requires s.strstart <= 2 * s.wSize - MIN_LOOKAHEAD
    requires s.Tallied(s.h.base + s.strstart) && |s.symBuf| < s.symEnd
    modifies s`insH, s`h, s`strstart, s`matchLength, s`lookahead, s`symBuf, s.head, s.prev
    ensures s.Valid() && s.matchLength == 0
    ensures s.strstart == old(s.strstart + s.matchLength)
    ensures s.strstart + s.lookahead == old(s.strstart + s.lookahead)
    ensures s.symBuf == old(s.symBuf) + [Match(old(s.strstart - s.matchStart), old(s.matchLength))]
    ensures s.Tallied(s.h.base + s.strstart)
    ensures s.h.input == old(s.h.input) && s.h.base == old(s.h.base)
    ensures s.Shape() && s.h.inserted == old(s.h.inserted) + GreedyCovers(old(TurnAt(s)), s.TheSettings())
    ensures |s.symBuf| <= s.symEnd && (bflush <==> |s.symBuf| == s.symEnd)
  {
    hide Deflate.Core, Deflate.WindowHolds, Deflate.Tables, Deflate.RolledAt, Repeats, Explains, HashParameters,
      OnChain, ChainAt, HashSize;
    s.CoreShape();
    ghost var at := s.h.base + s.strstart;
    ExplainsMatch(s.sent, s.symBuf, s.h.input, s.h.base + s.blockStart, at, s.MaxDist(),
      s.mark, s.floor, s.h.base + s.matchStart, s.matchLength);
    bflush := s.TallyDist(s.strstart - s.matchStart, s.matchLength - MIN_MATCH);
    s.lookahead := s.lookahead - s.matchLength;
    if s.matchLength <= s.maxLazyMatch && s.lookahead >= MIN_MATCH {
      InsertCovered(s);
    } else {
      SkipCovered(s);
    }
  }

  method EmitLiteral(s: Deflate) returns (bflush: bool)
    requires Searched(s) && s.matchLength < MIN_MATCH && 1 <= s.lookahead
    requires s.Tallied(s.h.base + s.strstart) && |s.symBuf| < s.symEnd
    modifies s`strstart, s`lookahead, s`symBuf
    ensures s.Valid()
    ensures s.strstart == old(s.strstart) + 1 && s.strstart + s.lookahead == old(s.strstart + s.lookahead)
    ensures old(s.h.base + s.strstart) < |s.h.input|
    ensures s.symBuf == old(s.symBuf) + [Literal(s.h.input[old(s.h.base + s.strstart)])]
    ensures s.Tallied(s.h.base + s.strstart)
    ensures |s.symBuf| <= s.symEnd && (bflush <==> |s.symBuf| == s.symEnd)
  {
    hide Deflate.Tables, Rolled, Explains, HashParameters;
    ExplainsLiteral(s.sent, s.symBuf, s.h.input, s.h.base + s.blockStart, s.h.base + s.strstart, s.MaxDist(),
      s.mark, s.floor);
    bflush := s.TallyLit(s.window[s.strstart]);
    s.lookahead := s.lookahead - 1;
    s.strstart := s.strstart + 1;
  }

  lemma SearchedShape(s: Deflate)
    requires Searched(s)
    ensures s.Shape() && s.strstart + s.lookahead == s.DataEnd()
  {
  }

  method Emit(s: Deflate) returns (bflush: bool)
    requires Searched(s) && 1 <= s.lookahead
    requires s.strstart <= 2 * s.wSize - MIN_LOOKAHEAD
    requires s.Tallied(s.h.base + s.strstart) && |s.symBuf| < s.symEnd
    modifies s`insH, s`h, s`strstart, s`matchLength, s`lookahead, s`symBuf, s.head, s.prev
    ensures s.Valid() && s.matchLength < MIN_MATCH
    ensures s.strstart == old(s.strstart) + GreedySize(old(TurnAt(s)))
    ensures s.strstart + s.lookahead == old(s.strstart + s.lookahead)
    ensures s.symBuf == old(s.symBuf) + [GreedySymbol(old(TurnAt(s)))]
    ensures s.Tallied(s.h.base + s.strstart)
    ensures s.h.input == old(s.h.input) && s.h.base == old(s.h.base)
    ensures s.Shape() && s.h.inserted == old(s.h.inserted) + GreedyCovers(old(TurnAt(s)), s.TheSettings())
    ensures |s.symBuf| <= s.symEnd && (bflush <==> |s.symBuf| == s.symEnd)
  {
    hide Deflate.Core, Deflate.Cursor, Deflate.Entered, Deflate.MatchFound, Explains, HashParameters;
    SearchedShape(s);
    if s.matchLength >= MIN_MATCH {
      bflush := EmitMatch(s);
    } else {
      bflush := EmitLiteral(s);
    }
  }

  // A turn, and the run that it continues.
  method Begin(s: Deflate) returns (ghost t: Turn)
    requires FastInv(s) && 1 <= s.lookahead && (s.lookahead >= MIN_LOOKAHEAD || s.nextIn == [])
    requires s.strstart + MAX_MATCH < s.written
    modifies s`insH, s`h, s`matchStart, s`matchAt, s`matchLength, s.head, s.prev
    ensures Searched(s) && t == TurnAt(s) && s.Fed()
    ensures s.h.input == old(s.h.input) && s.h.base == old(s.h.base)
    ensures s.h.inserted == old(s.h.inserted) + Itself(t)
    ensures s.Shape() && NewTurns(s.turns, s.turns + [t], s.floor, s.fed)
    ensures GreedyRun(s.turns + [t], s.TheSettings(), s.sent + s.symBuf + [GreedySymbol(t)], Place(t) + GreedySize(t))
    ensures Follows(s.turns + [t], s.h, s.strstart, s.floor, s.MaxDist())
  {
    hide Deflate.Core, Deflate.Cursor, Deflate.FedFrom, Explains, HashParameters, Searched, GreedyRun, GreedyTurn,
      Follows, NewTurns, Itself;
    s.CoreShape();
    if s.nextIn == [] {
      s.AllRead();
    }
    Search(s);
    t := TurnAt(s);
    OneNewTurn(s.turns, t, s.floor, s.fed);
    NextTurn(s.turns, s.TheSettings(), s.sent + s.symBuf, t);
  }

  // Search at strstart and emit a symbol for it.
  method TakeTurn(s: Deflate) returns (bflush: bool)
    requires FastInv(s) && 1 <= s.lookahead && (s.lookahead >= MIN_LOOKAHEAD || s.nextIn == [])
    requires s.strstart <= 2 * s.wSize - MIN_LOOKAHEAD && s.strstart + MAX_MATCH < s.written
    modifies s`insH, s`h, s`matchStart, s`matchAt, s`matchLength, s`strstart, s`lookahead, s`symBuf, s`turns,
      s.head, s.prev
    ensures s.Valid() && s.Fed() && s.matchLength < MIN_MATCH
    ensures s.Tallied(s.h.base + s.strstart) && s.blockStart <= s.strstart && Parsed(s)
    ensures |s.symBuf| <= s.symEnd && (bflush <==> |s.symBuf| == s.symEnd)
    ensures |s.turns| == |old(s.turns)| + 1 && NewTurns(old(s.turns), s.turns, s.floor, s.fed)
    ensures s.h.base == old(s.h.base) && s.strstart > old(s.strstart)
    ensures ghost var t := s.turns[|s.turns| - 1];
      t.Turn? && s.h.inserted == old(s.h.inserted) + Itself(t) + GreedyCovers(t, s.TheSettings())
  {
    hide Deflate.Core, Deflate.Cursor, Deflate.FedFrom, Explains, HashParameters, Searched, GreedyRun, Follows,
      NewTurns, Itself, GreedyCovers;
    s.CoreShape();
    ghost var t := Begin(s);
    ghost var h, str, syms := s.h, s.strstart, s.sent + s.symBuf;
    bflush := Emit(s);
    assert s.sent + s.symBuf == syms + [GreedySymbol(t)];
    s.turns := s.turns + [t];
    FollowsOn(s.turns, h, str, s.floor, s.MaxDist(), s.h, s.strstart);
  }

  lemma NextTurn(turns: seq<Turn>, p: Settings, syms: seq<Symbol>, t: Turn)
    requires t.Turn? && Follows(turns, t.h, t.str, t.floor, p.maxDist) && GreedyTurn(t, p)
    requires GreedyRun(turns, p, syms, Place(t)) && (3 <= t.lookahead ==> Place(t) in t.h.inserted)
    ensures GreedyRun(turns + [t], p, syms + [GreedySymbol(t)], Place(t) + GreedySize(t))
    ensures Follows(turns + [t], t.h, t.str, t.floor, p.maxDist)
  {
    hide GreedyRun, EnteredBefore, FromInput, AllAhead, Answer, InReach, Coherent;
    GreedyNext(turns, p, syms, t);
    FollowNext(turns, t, p.maxDist);
  }

  // One round of the loop, once there is lookahead: emit one symbol, and end
  // the block if the symbol buffer is full. `stop` means no output space.
  method Step(s: Deflate) returns (stop: bool)
    requires FastInv(s) && 1 <= s.lookahead && s.Going()
    requires s.lookahead >= MIN_LOOKAHEAD || s.nextIn == []
    requires s.strstart <= 2 * s.wSize - MIN_LOOKAHEAD && s.strstart + MAX_MATCH < s.written
    modifies s`insH, s`h, s`matchStart, s`matchAt, s`matchLength, s`strstart, s`lookahead, s`symBuf,
      s`given, s`sent, s`pending, s`availOut, s`produced, s`delivered, s`blockStart, s`turns, s.head, s.prev
    ensures FastInv(s) && s.Going() && FullBlocks(old(s.given), s.given, s.symEnd)
    ensures |s.turns| == |old(s.turns)| + 1 && NewTurns(old(s.turns), s.turns, s.floor, s.fed)
    ensures ghost var t := s.turns[|s.turns| - 1];
      t.Turn? && s.h.inserted == old(s.h.inserted) + Itself(t) + GreedyCovers(t, s.TheSettings())
    ensures s.h.base + s.strstart > old(s.h.base + s.strstart)
    ensures stop ==> s.availOut == 0
  {
    hide Deflate.Core, Deflate.Cursor, Deflate.FedFrom, Explains, HashParameters, Deflate.Going, Searched, GreedyRun,
      FullBlocks, Itself, GreedyCovers, NewTurns, Follows;
    s.CoreShape();
    NoBlocks(s.given, s.symEnd);
    var bflush := TakeTurn(s);
    stop := false;
    if bflush {
      s.CursorEnd();
      OneFullBlock(s.given, Block(s.symBuf, false), s.symEnd);
      stop := s.FlushBlock(false);
      assert s.sent + s.symBuf == s.sent;
    }
  }

  // Enough lookahead for a step, unless the input has run out.
  method Prepare(s: Deflate)
    requires FastInv(s)
    modifies s.window, s.head, s.prev, s`matchStart, s`strstart, s`blockStart, s`insert, s`h,
      s`nextIn, s`lookahead, s`insH, s`highWater, s`written
    ensures FastInv(s)
    ensures s.h.base + s.strstart == old(s.h.base + s.strstart)
    ensures s.lookahead >= MIN_LOOKAHEAD || s.nextIn == []
    ensures s.lookahead > 0 ==> s.strstart <= 2 * s.wSize - MIN_LOOKAHEAD && s.strstart + MAX_MATCH < s.written
  {
    hide Deflate.Core, Deflate.Cursor, Deflate.FedFrom, Explains, HashParameters, Follows, GreedyRun;
    s.CoreShape();
    if s.lookahead < MIN_LOOKAHEAD {
      ghost var h, str := s.h, s.strstart;
      s.Refill(s.h.base + s.strstart);
      FollowsOn(s.turns, h, str, s.floor, s.MaxDist(), s.h, s.strstart);
    } else {
      s.RoomAhead();
    }
  }

  // The input has run out: the block at hand is closed, as the last one at the
  // end of the stream.
  method End(s: Deflate, flush: Flush) returns (result: BlockState)
    requires FastInv(s) && s.Going() && s.lookahead == 0 && s.nextIn == []
    modifies s`insert, s`given, s`sent, s`symBuf, s`pending, s`availOut, s`produced, s`delivered, s`blockStart
    ensures FastInv(s) && (s.given == old(s.given) || (|s.given| == |old(s.given)| + 1 && old(s.given) < s.given))
    ensures result == NeedMore ==> flush != Finish && s.availOut == 0
    ensures result == FinishStarted ==> flush == Finish && s.availOut == 0
    ensures result == FinishDone ==> flush == Finish && s.pending == 0
    ensures result == BlockDone ==> flush != Finish
    ensures s.AllSent()
    ensures if flush == Finish then s.Ended() else s.Going()
  {
    hide Deflate.Core, Deflate.Cursor, Deflate.FedFrom, Deflate.AllSent, Explains, HashParameters, Deflate.Followed,
      GreedyRun, Deflate.Going, Deflate.Ended;
    ghost var blocks, syms, all := s.given, s.symBuf, s.sent;
    result := s.EndOfInput(flush);
    assert blocks + [] == blocks && all + [] == all;
    assert s.sent + s.symBuf == all + syms;
  }

  // The caller appends input.
  method Append(s: Deflate, more: seq<byte>)
    requires FastInv(s)
    modifies s`nextIn, s`fed
    ensures FastInv(s) && s.fed == old(s.fed) + more && s.nextIn == old(s.nextIn) + more
  {
    hide Deflate.Valid, Deflate.Tallied, Parsed;
    s.nextIn := s.nextIn + more;
    s.fed := s.fed + more;
  }

  method DeflateFast(s: Deflate, flush: Flush) returns (result: BlockState)
    requires FastInv(s) && s.Going()
    modifies s`insH, s`h, s`matchStart, s`matchAt, s`matchLength, s`strstart, s`lookahead, s`insert, s`symBuf, s`given,
      s`sent, s`pending, s`availOut, s`produced, s`delivered, s`blockStart, s`turns, s`nextIn, s`highWater,
      s`written, s.window, s.head, s.prev
    ensures FastInv(s) && CutBlocks(old(s.given), s.given, s.symEnd)
    ensures NewTurns(old(s.turns), s.turns, s.floor, s.fed)
    ensures result == NeedMore ==> s.availOut == 0 || (flush == NoFlush && s.nextIn == [])
    ensures result == FinishStarted ==> flush == Finish && s.availOut == 0
    ensures result == FinishDone ==> flush == Finish && s.pending == 0
    ensures result == BlockDone ==> Flushes(flush)
    ensures result != NeedMore ==> s.AllSent() && s.lookahead == 0
    ensures if flush == Finish && result != NeedMore then s.Ended() else s.Going()
  {
    hide Deflate.Core, Deflate.Cursor, Deflate.FedFrom, Deflate.AllSent, Explains, HashParameters, Parsed,
      Deflate.Going, Deflate.Ended, NewTurns;
    NoNewTurns(s.turns, s.floor, s.fed);
    NoBlocks(s.given, s.symEnd);
    while true
      invariant FastInv(s) && FullBlocks(old(s.given), s.given, s.symEnd)
      invariant s.Going() && NewTurns(old(s.turns), s.turns, s.floor, s.fed)
      decreases |s.fed| - (s.h.base + s.strstart)
    {
      s.Progress();
      Prepare(s);
      Unfinished(old(s.given), s.given, s.symEnd);
      if s.lookahead < MIN_LOOKAHEAD && flush == NoFlush {
        return NeedMore;
      }
      if s.lookahead == 0 {
        break;
      }
      ghost var turns, blocks := s.turns, s.given;
      var stop := Step(s);
      MoreTurns(old(s.turns), turns, s.turns, s.floor, s.fed);
      MoreBlocks(old(s.given), blocks, s.given, s.symEnd);
      Unfinished(old(s.given), s.given, s.symEnd);
      s.Progress();
      if stop {
        return NeedMore;
      }
    }
    ghost var blocks := s.given;
    result := End(s, flush);
    Finished(old(s.given), blocks, s.given, s.symEnd);
  }
}
