// deflate_slow: lazy matching, used at levels 4 to 9. A match is held back for
// one step, and given up for a single literal if the next position has a
// longer one.
module DeflateSlow {
  import opened Basics
  import opened Lz77
  import opened DeflateHash
  import opened DeflateDictionary
  import opened DeflateState
  import opened DeflateModes
  import opened DeflateBlocks
  import opened DeflateSearch
  import opened DeflateTurns

  const TOO_FAR := 4096

  // A true repetition at absolute position `at`, found at `from`, that ends
  // within the input and does not start below the floor.
  ghost predicate TrueMatch(input: seq<byte>, maxDist: nat, floor: nat, from: nat, at: int, len: nat) {
    && floor <= from && 0 <= at && MIN_MATCH <= len <= MAX_MATCH
    && from < at && at - from <= maxDist
    && Repeats(input, from, at, len)
  }

  // Between two steps: the tallied symbols stand for the input before
  // strstart, less the one byte held back when match_available is set; a match
  // of length 3 or more in match_length is a true match for that byte. The
  // symbols are those that lazy matching makes of the turns taken.
  ghost predicate SlowInv(s: Deflate)
    reads s`h, s`written, s`highWater, s`strstart, s`lookahead, s`insert, s`insH, s`matchStart, s`matchAt,
      s`matchLength,
      s`prevLength, s`nextIn, s`fed, s`sent, s`symBuf, s`blockStart, s`floor, s`mark, s`turns,
      s`matchAvailable, s.window, s.head, s.prev
  {
    SlowCore(s) && Parsed(s)
  }

  ghost predicate SlowCore(s: Deflate)
    reads s`h, s`written, s`highWater, s`strstart, s`lookahead, s`insert, s`insH, s`matchStart, s`matchAt,
      s`matchLength,
      s`prevLength, s`nextIn, s`fed, s`sent, s`symBuf, s`blockStart, s`floor, s`mark,
      s`matchAvailable, s.window, s.head, s.prev
  {
    && s.Valid() && s.Fed()
    && s.Tallied(s.h.base + s.strstart - HeldBack(s))
    && (s.matchAvailable ==> 1 <= s.strstart)
    && s.blockStart <= s.strstart
    && |s.symBuf| < s.symEnd
    && MIN_MATCH - 1 <= s.matchLength <= MAX_MATCH
    && (s.matchLength >= MIN_MATCH ==>
          && s.matchAvailable && s.insert == 0
          && s.matchLength <= s.lookahead + 1
          && TrueMatch(s.h.input, s.MaxDist(), s.floor, s.matchAt, s.h.base + s.strstart - 1, s.matchLength))
  }

  ghost predicate Parsed(s: Deflate)
    requires s.Shape()
    reads s`turns, s`h, s`floor, s`strstart, s`sent, s`symBuf, s`matchAvailable, s`matchLength, s`matchAt
  {
    s.Followed() && LazyRun(s.turns, s.TheSettings()) && Pending(s, Lazy(s.turns))
  }

  // The state of lazy matching is the compressor's.
  ghost predicate Pending(s: Deflate, q: Held)
    reads s`h, s`strstart, s`sent, s`symBuf, s`matchAvailable, s`matchLength, s`matchAt
  {
    && q.syms == s.sent + s.symBuf && q.at == s.h.base + s.strstart
    && q.held == s.matchAvailable && q.best == s.matchLength
    && (q.best >= MIN_MATCH ==> q.dist == s.h.base + s.strstart - 1 - s.matchAt)
  }

  function HeldBack(s: Deflate): nat
    reads s`matchAvailable
  {
    if s.matchAvailable then 1 else 0
  }

  // A match found at strstart that beats the one found a step before.
  ghost predicate BetterMatch(s: Deflate)
    requires s.Shape()
    reads s`h, s`matchLength, s`prevLength, s`matchAt, s`strstart, s`lookahead, s`floor
  {
    s.matchLength >= MIN_MATCH && s.matchLength > s.prevLength ==>
      MIN_MATCH <= s.lookahead && s.matchLength <= s.lookahead
      && TrueMatch(s.h.input, s.MaxDist(), s.floor, s.matchAt, s.h.base + s.strstart, s.matchLength)
  }

  // Look for a match longer than the previous one, and give up a short match
  // that is not worth its distance.
  method LazySearch(s: Deflate, hashHead: nat) returns (ghost len: nat)
    requires s.Searchable() && s.Candidate(hashHead) && s.MatchIndexed() && s.floor <= s.h.base
    requires MIN_MATCH - 1 <= s.prevLength <= MAX_MATCH
    modifies s`matchStart, s`matchAt, s`matchLength
    ensures s.MatchIndexed() && BetterMatch(s)
    ensures MIN_MATCH - 1 <= s.matchLength <= MAX_MATCH
    ensures Min(s.prevLength, s.lookahead) <= len <= s.lookahead
    ensures NoneLonger(s.h, s.strstart, s.MayTry(hashHead), len, Min(s.niceMatch, s.lookahead))
    ensures s.matchLength ==
      if len <= 5 && (s.filtered || (len == 3 && (s.strstart - s.matchStart) % WORD > 4096)) then 2 else len
  {
    hide Deflate.Core, HashParameters, Repeats, Deflate.MatchIndexed, Deflate.Searchable, Deflate.Candidate,
      NoneLonger, Deflate.MayTry;
    s.SearchRoom();
    s.matchLength := s.LongestMatch(hashHead);
    len := s.matchLength;
    if s.matchLength <= 5
      && (s.filtered || (s.matchLength == MIN_MATCH && (s.strstart - s.matchStart) % WORD > TOO_FAR)) {
      s.matchLength := MIN_MATCH - 1;
    }
  }

  lemma NoBetterMatch(s: Deflate)
    requires s.Shape() && s.matchLength < MIN_MATCH
    ensures BetterMatch(s)
  {
  }

  // The turn at strstart, once the search has come back with len.
  ghost function TurnAt(s: Deflate, len: nat): Turn
    reads s, s.head, s.prev
  {
    s.TurnHere(len, s.matchLength)
  }

  // What the search was asked for, and what it came back with.
  ghost predicate Sought(s: Deflate, len: nat, hashHead: nat)
    requires s.Shape()
    reads s, s.prev
  {
    if hashHead != 0 && s.prevLength < s.maxLazyMatch && s.strstart - hashHead <= s.MaxDist() then
      && Min(s.prevLength, s.lookahead) <= len <= s.lookahead
      && NoneLonger(s.h, s.strstart, s.MayTry(hashHead), len, Min(s.niceMatch, s.lookahead))
      && s.matchLength ==
           if len <= 5 && (s.filtered || (len == 3 && (s.strstart - s.matchStart) % WORD > 4096)) then 2 else len
    else
      s.matchLength == 2
  }

  lemma TurnIsLazy(s: Deflate, q: Held, len: nat, hashHead: nat)
    requires s.Entered() && s.Followed() && 1 <= s.lookahead && s.strstart + MAX_MATCH < s.written
    requires q.at == s.h.base + s.strstart && q.best == s.prevLength && s.strstart < 2 * s.wSize
    requires hashHead == if s.lookahead < MIN_MATCH then 0 else s.prev[Slot(s.strstart, s.wSize)]
    requires Sought(s, len, hashHead)
    ensures LazyTurn(q, TurnAt(s, len), s.TheSettings())
  {
    hide Deflate.Core, HashParameters, Follows, Tried, NoneLonger, Snapshot, Slot;
    s.EnteredShape();
    s.SnapshotHere(len, s.matchLength);
  }

  // Enter strstart into the dictionary, and keep the match found before.
  method Begin(s: Deflate) returns (hashHead: nat)
    requires s.Valid() && MIN_MATCH - 1 <= s.matchLength <= MAX_MATCH && s.Followed()
    requires s.strstart + MAX_MATCH < s.written
    modifies s`insH, s`h, s`matchLength, s`prevLength, s`prevMatch, s.head, s.prev
    ensures s.Shape() && s.strstart < 2 * s.wSize
    ensures s.Entered() && s.MatchIndexed() && BetterMatch(s) && s.Followed()
    ensures s.h.input == old(s.h.input) && s.h.base == old(s.h.base)
    ensures s.h.inserted == old(s.h.inserted) + if MIN_MATCH <= s.lookahead then {s.h.base + s.strstart} else {}
    ensures s.prevLength == old(s.matchLength) && s.prevMatch == s.matchStart && s.matchLength == MIN_MATCH - 1
    ensures hashHead == if s.lookahead < MIN_MATCH then 0 else s.prev[Slot(s.strstart, s.wSize)]
    ensures hashHead != 0 && s.strstart - hashHead <= s.MaxDist() ==> s.Searchable() && s.Candidate(hashHead)
  {
    hide Deflate.Core, Deflate.Cursor, HashParameters, BetterMatch, Deflate.MatchIndexed, Deflate.Entered,
      Deflate.Candidate, Deflate.Searchable, Follows, Slot;
    s.CoreShape();
    hashHead := s.Enter();
    s.CoreShape();
    s.prevLength := s.matchLength;
    s.prevMatch := s.matchStart;
    s.matchLength := MIN_MATCH - 1;
    NoBetterMatch(s);
  }

  method Search(s: Deflate, ghost q: Held) returns (ghost len: nat)
    requires s.Valid() && MIN_MATCH - 1 <= s.matchLength <= MAX_MATCH && s.Followed() && s.floor <= s.h.base
    requires s.strstart + MAX_MATCH < s.written && 1 <= s.lookahead
    requires q.best == s.matchLength && q.at == s.h.base + s.strstart
    modifies s`insH, s`h, s`matchStart, s`matchAt, s`matchLength, s`prevLength, s`prevMatch, s.head, s.prev
    ensures s.Entered() && s.MatchIndexed() && BetterMatch(s) && s.Followed()
    ensures s.h.input == old(s.h.input) && s.h.base == old(s.h.base)
    ensures s.h.inserted == old(s.h.inserted) + if MIN_MATCH <= s.lookahead then {s.h.base + s.strstart} else {}
    ensures LazyTurn(q, TurnAt(s, len), s.TheSettings())
    ensures s.prevLength == old(s.matchLength) && s.prevMatch == old(s.matchStart)
    ensures MIN_MATCH - 1 <= s.matchLength <= MAX_MATCH
  {
    hide Deflate.Valid, HashParameters, BetterMatch, Deflate.MatchIndexed, Deflate.Entered, Deflate.Candidate,
      Deflate.Searchable, Deflate.Followed, NoneLonger, Slot, LazyTurn, Deflate.MayTry;
    var hashHead := Begin(s);
    len := MIN_MATCH - 1;
    if hashHead != 0 && s.prevLength < s.maxLazyMatch && s.strstart - hashHead <= s.MaxDist() {
      len := LazySearch(s, hashHead);
    }
    TurnIsLazy(s, q, len, hashHead);
  }

  // Insert the strings the previous match covers, as far as three bytes are left.
  method InsertWithin(s: Deflate, maxInsert: int)
    requires s.Core() && 1 <= s.prevLength && maxInsert == s.DataEnd() - MIN_MATCH
    requires s.h.end <= s.h.base + s.strstart + 1
    requires s.strstart <= maxInsert ==> s.RolledAt(s.strstart + 1)
    modifies s`insH, s`h, s`strstart, s`prevLength, s.head, s.prev
    ensures s.Core() && s.strstart == old(s.strstart + s.prevLength)
    ensures s.h.input == old(s.h.input) && s.h.base == old(s.h.base) && s.h.end <= s.h.base + s.strstart + 1
    ensures s.strstart <= maxInsert ==> s.RolledAt(s.strstart + 1)
    ensures Grown(old(s.h.inserted), s.h.inserted, old(s.h.base + s.strstart) + 1,
      Least(s.h.base + s.strstart + 1, |s.h.input| - 2))
  {
    hide Deflate.Core, Deflate.RolledAt, HashParameters, HashSize, Grown;
    s.CoreShape();
    ghost var from, all := s.h.base + s.strstart + 1, s.h.inserted;
    GrownNone(all, from, Least(from, |s.h.input| - 2));
    while true
      invariant s.Core() && s.h.input == old(s.h.input) && s.h.base == old(s.h.base)
      invariant Grown(all, s.h.inserted, from, Least(s.h.base + s.strstart + 1, |s.h.input| - 2))
      invariant 1 <= s.prevLength && s.strstart + s.prevLength == old(s.strstart + s.prevLength)
      invariant s.h.end <= s.h.base + s.strstart + 1
      invariant s.strstart <= maxInsert ==> s.RolledAt(s.strstart + 1)
      decreases s.prevLength
    {
      s.strstart := s.strstart + 1;
      if s.strstart <= maxInsert {
        GrownNext(all, s.h.inserted, from, s.h.base + s.strstart);
        s.Insert(s.strstart);
      }
      s.prevLength := s.prevLength - 1;
      if s.prevLength == 0 {
        break;
      }
    }
  }

  // And move past it.
  method InsertMatched(s: Deflate, maxInsert: int)
    requires s.Core() && s.MatchIndexed() && s.insert == 0 && 1 <= s.prevLength
    requires maxInsert == s.DataEnd() - MIN_MATCH
    requires s.strstart + s.prevLength + 1 + s.lookahead == s.DataEnd()
    requires s.h.end <= s.h.base + s.strstart + 1
    requires s.strstart <= maxInsert ==> s.RolledAt(s.strstart + 1)
    modifies s`insH, s`h, s`strstart, s`prevLength, s`matchAvailable, s`matchLength, s.head, s.prev
    ensures s.Valid() && !s.matchAvailable && s.matchLength == MIN_MATCH - 1
    ensures s.strstart == old(s.strstart + s.prevLength) + 1
    ensures s.h.input == old(s.h.input) && s.h.base == old(s.h.base)
    ensures Grown(old(s.h.inserted), s.h.inserted, old(s.h.base + s.strstart) + 1,
      Least(s.h.base + s.strstart, |s.h.input| - 2))
  {
    hide Deflate.Core, Deflate.RolledAt, HashParameters, HashSize, Grown;
    s.CoreShape();
    InsertWithin(s, maxInsert);
    s.matchAvailable := false;
    s.matchLength := MIN_MATCH - 1;
    s.strstart := s.strstart + 1;
  }

  // match_start was moved down with the window and may have wrapped round; the
  // distance computed from it has not changed.
  lemma WrappedDistance(strstart: nat, base: nat, at: nat, prevMatch: nat)
    requires prevMatch == (at - base) % WORD
    requires 0 < base + strstart - 1 - at < WORD
    ensures (strstart - 1 - prevMatch) % WORD == base + strstart - 1 - at
  {
  }

  lemma EnteredEnd(s: Deflate)
    requires s.Entered()
    ensures s.h.end <= s.h.base + s.strstart + 1
  {
  }

  // The previous match stands: emit it.
  method EmitPrevious(s: Deflate, ghost prevAt: nat) returns (bflush: bool)
    requires s.Entered() && s.insert == 0 && 1 <= s.strstart && s.MatchIndexed()
    requires s.prevLength <= s.lookahead + 1
    requires s.prevMatch == (prevAt - s.h.base) % WORD
    requires TrueMatch(s.h.input, s.MaxDist(), s.floor, prevAt, s.h.base + s.strstart - 1, s.prevLength)
    requires s.Tallied(s.h.base + s.strstart - 1) && |s.symBuf| < s.symEnd
    modifies s`insH, s`h, s`strstart, s`prevLength, s`matchAvailable, s`matchLength, s`lookahead, s`symBuf,
      s.head, s.prev
    ensures s.Valid() && !s.matchAvailable && s.matchLength == MIN_MATCH - 1
    ensures s.strstart == old(s.strstart + s.prevLength) - 1
    ensures s.symBuf == old(s.symBuf) + [Match(old(s.h.base + s.strstart) - 1 - prevAt, old(s.prevLength))]
    ensures s.Tallied(s.h.base + s.strstart)
    ensures s.h.input == old(s.h.input) && s.h.base == old(s.h.base)
    ensures Grown(old(s.h.inserted), s.h.inserted, old(s.h.base + s.strstart) + 1,
      Least(s.h.base + s.strstart, |s.h.input| - 2))
    ensures |s.symBuf| <= s.symEnd && (bflush <==> |s.symBuf| == s.symEnd)
  {
    hide Deflate.Core, Deflate.RolledAt, OnChain, ChainAt, HashParameters, HashSize, Deflate.MatchIndexed, Explains,
      Repeats, Deflate.Cursor, Grown;
    s.CoreShape();
    ghost var at := s.h.base + s.strstart - 1;
    var maxInsert := s.strstart + s.lookahead - MIN_MATCH;
    ExplainsMatch(s.sent, s.symBuf, s.h.input, s.h.base + s.blockStart, at, s.MaxDist(), s.mark, s.floor,
      prevAt, s.prevLength);
    WrappedDistance(s.strstart, s.h.base, prevAt, s.prevMatch);
    bflush := s.TallyDist((s.strstart - 1 - s.prevMatch) % WORD, s.prevLength - MIN_MATCH);
    EnteredEnd(s);
    s.lookahead := s.lookahead - (s.prevLength - 1);
    s.prevLength := s.prevLength - 2;
    InsertMatched(s, maxInsert);
  }

  // The held byte goes out as a literal.
  method EmitHeld(s: Deflate) returns (bflush: bool)
    requires s.Core() && s.strstart + s.lookahead == s.DataEnd() && 1 <= s.strstart
    requires s.Tallied(s.h.base + s.strstart - 1) && |s.symBuf| < s.symEnd
    modifies s`symBuf
    ensures s.Tallied(s.h.base + s.strstart)
    ensures s.h.base + s.strstart - 1 < |s.h.input|
    ensures s.symBuf == old(s.symBuf) + [Literal(s.h.input[s.h.base + s.strstart - 1])]
    ensures |s.symBuf| <= s.symEnd && (bflush <==> |s.symBuf| == s.symEnd)
  {
    hide Deflate.Core, Explains, HashParameters;
    s.CoreShape();
    s.WindowAt(s.strstart - 1);
    ExplainsLiteral(s.sent, s.symBuf, s.h.input, s.h.base + s.blockStart, s.h.base + s.strstart - 1, s.MaxDist(),
      s.mark, s.floor);
    bflush := s.TallyLit(s.window[s.strstart - 1]);
  }

  // Step to the next position with the byte at this one held back.
  method Advance(s: Deflate)
    requires s.Entered() && s.MatchIndexed() && 1 <= s.lookahead
    modifies s`strstart, s`lookahead
    ensures s.Valid()
    ensures s.strstart == old(s.strstart) + 1 && s.lookahead == old(s.lookahead) - 1
  {
    hide Deflate.WindowHolds, Deflate.Tables, OnChain, ChainAt, HashParameters, Rolled;
    s.strstart := s.strstart + 1;
    s.lookahead := s.lookahead - 1;
  }

  lemma Indexed(s: Deflate)
    requires s.Valid()
    ensures s.MatchIndexed() && s.strstart + s.lookahead == s.DataEnd()
  {
  }

  // The three things a round can do once it has searched at strstart.
  ghost predicate Decided(s: Deflate)
    reads s, s.window, s.head, s.prev
  {
    && s.Entered() && s.MatchIndexed() && BetterMatch(s) && s.Fed()
    && s.Tallied(s.h.base + s.strstart - HeldBack(s))
    && (s.matchAvailable ==> 1 <= s.strstart)
    && s.blockStart <= s.strstart
    && |s.symBuf| < s.symEnd
    && 1 <= s.lookahead
    && MIN_MATCH - 1 <= s.matchLength <= MAX_MATCH
  }

  lemma DecidedShape(s: Deflate)
    requires Decided(s)
    ensures s.Shape() && s.MatchIndexed() && BetterMatch(s) && s.strstart + s.lookahead == s.DataEnd()
    ensures MIN_MATCH - 1 <= s.matchLength <= MAX_MATCH && (s.matchAvailable ==> 1 <= s.strstart)
  {
    hide Deflate.Core;
    s.EnteredShape();
  }

  method TakePrevious(s: Deflate, ghost prevAt: nat) returns (stop: bool)
    requires Decided(s) && s.matchAvailable && s.insert == 0 && s.Going()
    requires s.prevLength <= s.lookahead + 1
    requires s.prevMatch == (prevAt - s.h.base) % WORD
    requires TrueMatch(s.h.input, s.MaxDist(), s.floor, prevAt, s.h.base + s.strstart - 1, s.prevLength)
    modifies s`insH, s`h, s`strstart, s`prevLength, s`matchAvailable, s`matchLength, s`lookahead, s`symBuf,
      s`given, s`sent, s`pending, s`availOut, s`produced, s`delivered, s`blockStart, s.head, s.prev
    ensures SlowCore(s) && s.Going() && FullBlocks(old(s.given), s.given, s.symEnd)
    ensures s.h.base == old(s.h.base) && s.h.input == old(s.h.input)
    ensures Grown(old(s.h.inserted), s.h.inserted, old(s.h.base + s.strstart) + 1,
      Least(s.h.base + s.strstart, |s.h.input| - 2))
    ensures s.strstart == old(s.strstart + s.prevLength) - 1 && !s.matchAvailable && s.matchLength == MIN_MATCH - 1
    ensures s.sent + s.symBuf ==
      old(s.sent + s.symBuf) + [Match(old(s.h.base + s.strstart) - 1 - prevAt, old(s.prevLength))]
    ensures stop ==> s.availOut == 0
  {
    hide Deflate.Core, Deflate.Cursor, Deflate.FedFrom, Explains, HashParameters, TrueMatch, Deflate.Entered,
      Deflate.Going, Grown, FullBlocks;
    s.EnteredShape();
    NoBlocks(s.given, s.symEnd);
    TrueDistance(s.h.input, s.MaxDist(), s.floor, prevAt, s.h.base + s.strstart - 1, s.prevLength);
    var bflush := EmitPrevious(s, prevAt);
    stop := false;
    if bflush {
      s.CursorEnd();
      OneFullBlock(s.given, Block(s.symBuf, false), s.symEnd);
      stop := s.FlushBlock(false);
      assert s.sent + s.symBuf == s.sent;
    }
  }

  lemma TrueDistance(input: seq<byte>, maxDist: nat, floor: nat, from: nat, at: int, len: nat)
    requires TrueMatch(input, maxDist, floor, from, at, len)
    ensures 3 <= len <= 258 && 0 < at - from <= maxDist
  {
  }

  // The held byte goes out, and the block with it if it is full.
  method SendHeld(s: Deflate)
    requires s.Core() && s.strstart + s.lookahead == s.DataEnd() && 1 <= s.strstart && s.blockStart <= s.strstart
    requires s.Tallied(s.h.base + s.strstart - 1) && |s.symBuf| < s.symEnd && s.Going()
    modifies s`symBuf, s`given, s`sent, s`pending, s`availOut, s`produced, s`delivered, s`blockStart
    ensures s.Tallied(s.h.base + s.strstart) && s.blockStart <= s.strstart
    ensures |s.symBuf| < s.symEnd && s.Going() && FullBlocks(old(s.given), s.given, s.symEnd)
    ensures s.h.base + s.strstart - 1 < |s.h.input|
    ensures s.sent + s.symBuf == old(s.sent + s.symBuf) + [Literal(s.h.input[s.h.base + s.strstart - 1])]
  {
    hide Deflate.Core, Explains, HashParameters, Deflate.Going, FullBlocks;
    s.CoreShape();
    NoBlocks(s.given, s.symEnd);
    var bflush := EmitHeld(s);
    if bflush {
      OneFullBlock(s.given, Block(s.symBuf, false), s.symEnd);
      s.FlushBlockOnly(false);
      assert s.sent + s.symBuf == s.sent;
    }
  }

  method TakeLiteral(s: Deflate) returns (stop: bool)
    requires Decided(s) && s.matchAvailable && s.Going()
    requires s.matchLength >= MIN_MATCH ==> s.matchLength > s.prevLength
    modifies s`strstart, s`lookahead, s`symBuf, s`given, s`sent, s`pending, s`availOut, s`produced, s`delivered,
      s`blockStart
    ensures SlowCore(s) && s.Going() && FullBlocks(old(s.given), s.given, s.symEnd)
    ensures s.strstart == old(s.strstart) + 1 && s.h.base + s.strstart - 2 < |s.h.input| && 2 <= s.strstart
    ensures s.sent + s.symBuf == old(s.sent + s.symBuf) + [Literal(s.h.input[s.h.base + s.strstart - 2])]
    ensures stop ==> s.availOut == 0
  {
    hide Deflate.Core, Deflate.Cursor, Deflate.FedFrom, Explains, HashParameters, TrueMatch, Deflate.Entered,
      Deflate.Going, FullBlocks;
    s.EnteredShape();
    SendHeld(s);
    Advance(s);
    stop := s.availOut == 0;
  }

  method Hold(s: Deflate)
    requires Decided(s) && !s.matchAvailable
    requires s.matchLength >= MIN_MATCH ==> s.matchLength > s.prevLength
    modifies s`strstart, s`lookahead, s`matchAvailable
    ensures SlowCore(s) && s.matchAvailable
    ensures s.strstart == old(s.strstart) + 1
  {
    hide Deflate.Core, Deflate.Cursor, Deflate.FedFrom, Explains, HashParameters, TrueMatch, Deflate.Entered;
    s.EnteredShape();
    s.matchAvailable := true;
    Advance(s);
  }

  // What a search has found, as a step has it: the turn, the state of lazy
  // matching before it, and where the match held back is.
  ghost predicate Found(s: Deflate, q: Held, t: Turn, prevAt: nat)
    requires s.Shape()
    reads s, s.head, s.prev
  {
    && t.Turn? && t == TurnAt(s, t.len) && LazyTurn(q, t, s.TheSettings())
    && q.syms == s.sent + s.symBuf && q.at == s.h.base + s.strstart
    && q.held == s.matchAvailable && q.best == s.prevLength
    && (q.best >= MIN_MATCH ==> q.dist == s.h.base + s.strstart - 1 - prevAt)
  }

  // A match that is held back is a true one, found at prevAt.
  ghost predicate Previous(s: Deflate, prevAt: nat)
    requires s.Shape()
    reads s
  {
    s.prevLength >= MIN_MATCH ==>
      && s.matchAvailable && s.insert == 0 && s.prevLength <= s.lookahead + 1
      && s.prevMatch == (prevAt - s.h.base) % WORD
      && TrueMatch(s.h.input, s.MaxDist(), s.floor, prevAt, s.h.base + s.strstart - 1, s.prevLength)
  }

  method BeginTurn(s: Deflate, ghost q: Held) returns (ghost t: Turn)
    requires SlowCore(s) && 1 <= s.lookahead && s.strstart + MAX_MATCH < s.written
    requires s.Followed() && Pending(s, q)
    modifies s`insH, s`h, s`matchStart, s`matchAt, s`matchLength, s`prevLength, s`prevMatch, s.head, s.prev
    ensures Decided(s) && Found(s, q, t, old(s.matchAt)) && Previous(s, old(s.matchAt)) && s.Followed()
    ensures s.h.input == old(s.h.input) && s.h.base == old(s.h.base)
    ensures s.h.inserted == old(s.h.inserted) + Itself(t)
    ensures MIN_MATCH <= s.lookahead ==> s.h.base + s.strstart in s.h.inserted
  {
    hide Deflate.Core, Deflate.Cursor, Explains, HashParameters, TrueMatch, Deflate.Entered, BetterMatch, LazyTurn,
      Follows;
    s.CoreShape();
    Indexed(s);
    ghost var len := Search(s, q);
    s.EnteredShape();
    t := TurnAt(s, len);
  }

  // The byte or the match that is decided at strstart, as lazy matching has it.
  method Decide(s: Deflate, ghost q: Held, ghost t: Turn, ghost prevAt: nat) returns (stop: bool)
    requires Decided(s) && s.Going() && Found(s, q, t, prevAt)
    requires Previous(s, prevAt)
    modifies s`insH, s`h, s`strstart, s`prevLength, s`matchAvailable, s`matchLength, s`lookahead, s`symBuf,
      s`given, s`sent, s`pending, s`availOut, s`produced, s`delivered, s`blockStart, s.head, s.prev
    ensures SlowCore(s) && s.Going() && FullBlocks(old(s.given), s.given, s.symEnd) && Pending(s, LazyNext(q, t))
    ensures s.h.base == old(s.h.base) && s.h.input == old(s.h.input)
    ensures s.h.inserted == old(s.h.inserted) + LazyCovers(q.best, t)
    ensures s.strstart > old(s.strstart)
    ensures stop ==> s.availOut == 0
  {
    hide SlowCore, Decided, HashParameters, TrueMatch, LazyTurn, Deflate.Going, FullBlocks;
    DecidedShape(s);
    DistanceHere(s);
    NoBlocks(s.given, s.symEnd);
    if s.prevLength >= MIN_MATCH && s.matchLength <= s.prevLength {
      stop := TakePrevious(s, prevAt);
    } else if s.matchAvailable {
      stop := TakeLiteral(s);
    } else {
      Hold(s);
      stop := false;
    }
  }

  // A new match is at the distance that the turn notes.
  lemma DistanceHere(s: Deflate)
    requires s.Shape() && s.MatchIndexed() && BetterMatch(s)
    ensures s.matchLength >= MIN_MATCH && s.matchLength > s.prevLength ==>
      (s.strstart - s.matchStart) % WORD == s.h.base + s.strstart - s.matchAt
  {
  }

  // A turn, and the run that it continues.
  method NextTurn(s: Deflate) returns (ghost t: Turn)
    requires SlowInv(s) && 1 <= s.lookahead && s.strstart + MAX_MATCH < s.written
    requires s.lookahead >= MIN_LOOKAHEAD || s.nextIn == []
    modifies s`insH, s`h, s`matchStart, s`matchAt, s`matchLength, s`prevLength, s`prevMatch, s.head, s.prev
    ensures Decided(s) && Previous(s, old(s.matchAt)) && Found(s, Lazy(s.turns), t, old(s.matchAt)) && t.Turn?
    ensures s.h.input == old(s.h.input) && s.h.base == old(s.h.base)
    ensures s.h.inserted == old(s.h.inserted) + Itself(t)
    ensures s.Shape() && LazyRun(s.turns + [t], s.TheSettings()) && NewTurns(s.turns, s.turns + [t], s.floor, s.fed)
    ensures Lazy(s.turns + [t]) == LazyNext(Lazy(s.turns), t)
    ensures Follows(s.turns + [t], s.h, s.strstart, s.floor, s.MaxDist())
  {
    hide SlowCore, HashParameters, Decided, Previous, LazyRun, Lazy, LazyTurn, Follows, Deflate.Valid, Deflate.Fed,
      LazyNext, NewTurns, Deflate.Tallied;
    CoreShape(s);
    if s.nextIn == [] {
      s.AllRead();
    }
    t := BeginTurn(s, Lazy(s.turns));
    RunGoesOn(s.turns, s.TheSettings(), t);
    OneNewTurn(s.turns, t, s.floor, s.fed);
  }

  // One round of the loop, once there is lookahead. The byte at strstart is
  // decided or held back; `stop` means that the output buffer is full.
  method Step(s: Deflate) returns (stop: bool)
    requires SlowInv(s) && 1 <= s.lookahead && s.Going()
    requires s.lookahead >= MIN_LOOKAHEAD || s.nextIn == []
    requires s.strstart + MAX_MATCH < s.written
    modifies s`insH, s`h, s`matchStart, s`matchAt, s`matchLength, s`prevLength, s`prevMatch, s`strstart, s`lookahead,
      s`matchAvailable, s`symBuf, s`given, s`sent, s`pending, s`availOut, s`produced, s`delivered, s`blockStart,
      s`turns, s.head, s.prev
    ensures SlowInv(s) && s.Going() && FullBlocks(old(s.given), s.given, s.symEnd)
    ensures |s.turns| == |old(s.turns)| + 1 && NewTurns(old(s.turns), s.turns, s.floor, s.fed)
    ensures ghost var t := s.turns[|s.turns| - 1];
      t.Turn? && s.h.inserted == old(s.h.inserted) + Itself(t) + LazyCovers(old(Lazy(s.turns)).best, t)
    ensures s.h.base + s.strstart > old(s.h.base + s.strstart)
    ensures stop ==> s.availOut == 0
  {
    hide SlowCore, HashParameters, Decided, Previous, Deflate.Going, LazyRun, Lazy, Follows, Found, LazyNext, NewTurns,
      Pending, LazyCovers, Itself, FullBlocks;
    ghost var prevAt, q := s.matchAt, Lazy(s.turns);
    ghost var t := NextTurn(s);
    ghost var h, str := s.h, s.strstart;
    stop := Decide(s, q, t, prevAt);
    s.turns := s.turns + [t];
    FollowsOn(s.turns, h, str, s.floor, s.MaxDist(), s.h, s.strstart);
  }

  lemma RunGoesOn(turns: seq<Turn>, p: Settings, t: Turn)
    requires t.Turn? && Follows(turns, t.h, t.str, t.floor, p.maxDist) && LazyRun(turns, p)
    requires LazyTurn(Lazy(turns), t, p) && (3 <= t.lookahead ==> Place(t) in t.h.inserted)
    ensures LazyRun(turns + [t], p) && Lazy(turns + [t]) == LazyNext(Lazy(turns), t)
    ensures Follows(turns + [t], t.h, t.str, t.floor, p.maxDist)
  {
    hide LazyRun, Lazy, EnteredBefore, FromInput, AllAhead, Answer, InReach, Coherent;
    LazyStep(turns, p, t);
    FollowNext(turns, t, p.maxDist);
  }

  method RefillCore(s: Deflate)
    requires SlowCore(s) && s.lookahead < MIN_LOOKAHEAD
    modifies s.window, s.head, s.prev, s`matchStart, s`strstart, s`blockStart, s`insert, s`h,
      s`nextIn, s`lookahead, s`insH, s`highWater, s`written
    ensures SlowCore(s)
    ensures old(s.h.input) <= s.h.input && old(s.h.base) <= s.h.base && old(s.h.inserted) <= s.h.inserted
    ensures s.h.base + s.strstart == old(s.h.base + s.strstart)
    ensures s.strstart == old(s.strstart) || s.MaxDist() <= s.strstart
    ensures s.lookahead >= MIN_LOOKAHEAD || s.nextIn == []
    ensures s.lookahead > 0 ==> s.strstart + MAX_MATCH < s.written
  {
    hide Deflate.Core, Deflate.Cursor, Deflate.FedFrom, Explains, HashParameters, Repeats;
    s.CoreShape();
    ghost var input := s.h.input;
    s.Refill(s.h.base + s.strstart - HeldBack(s));
    if s.matchLength >= MIN_MATCH {
      RepeatsMoreData(input, s.h.input, s.matchAt, s.h.base + s.strstart - 1, s.matchLength);
    }
  }

  lemma CoreShape(s: Deflate)
    requires SlowCore(s)
    ensures s.Shape() && s.Valid() && s.Fed() && s.floor <= s.h.base
  {
  }

  method Refill(s: Deflate)
    requires SlowInv(s) && s.lookahead < MIN_LOOKAHEAD
    modifies s.window, s.head, s.prev, s`matchStart, s`strstart, s`blockStart, s`insert, s`h,
      s`nextIn, s`lookahead, s`insH, s`highWater, s`written
    ensures SlowInv(s)
    ensures s.h.base + s.strstart == old(s.h.base + s.strstart)
    ensures s.lookahead >= MIN_LOOKAHEAD || s.nextIn == []
    ensures s.lookahead > 0 ==> s.strstart + MAX_MATCH < s.written
  {
    hide SlowCore, Follows, LazyRun, Lazy, HashParameters;
    CoreShape(s);
    ghost var h, str := s.h, s.strstart;
    RefillCore(s);
    CoreShape(s);
    FollowsOn(s.turns, h, str, s.floor, s.MaxDist(), s.h, s.strstart);
  }

  // Enough lookahead for a step, unless the input has run out.
  method Prepare(s: Deflate)
    requires SlowInv(s)
    modifies s.window, s.head, s.prev, s`matchStart, s`strstart, s`blockStart, s`insert, s`h,
      s`nextIn, s`lookahead, s`insH, s`highWater, s`written
    ensures SlowInv(s)
    ensures s.h.base + s.strstart == old(s.h.base + s.strstart)
    ensures s.lookahead >= MIN_LOOKAHEAD || s.nextIn == []
    ensures s.lookahead > 0 ==> s.strstart + MAX_MATCH < s.written
  {
    hide SlowCore, Parsed, HashParameters;
    CoreShape(s);
    if s.lookahead < MIN_LOOKAHEAD {
      Refill(s);
    } else {
      s.RoomAhead();
    }
  }

  // The last held byte, when the input has run out.
  method EmitLast(s: Deflate)
    requires SlowInv(s) && s.lookahead == 0
    modifies s`symBuf, s`matchAvailable, s`turns
    ensures s.Valid() && s.Tallied(s.h.base + s.strstart) && !s.matchAvailable && s.matchLength == MIN_MATCH - 1
    ensures |s.symBuf| <= s.symEnd && Parsed(s)
    ensures NewTurns(old(s.turns), s.turns, s.floor, s.fed)
  {
    hide Deflate.Core, Explains, HashParameters, LazyRun, Lazy, Follows, TrueMatch;
    s.CoreShape();
    s.CursorEnd();
    if s.matchAvailable {
      ghost var b := s.h.input[s.h.base + s.strstart - 1];
      RestTurn(s.turns, s.TheSettings(), b, s.h, s.strstart, s.floor);
      var _ := EmitHeld(s);
      s.matchAvailable := false;
      s.turns := s.turns + [Rest(b)];
    }
  }

  lemma RestTurn(turns: seq<Turn>, p: Settings, b: byte, h: History, str: nat, floor: nat)
    requires Follows(turns, h, str, floor, p.maxDist) && LazyRun(turns, p)
    ensures LazyRun(turns + [Rest(b)], p) && Lazy(turns + [Rest(b)]) == LazyNext(Lazy(turns), Rest(b))
    ensures Follows(turns + [Rest(b)], h, str, floor, p.maxDist)
  {
    hide LazyRun, Lazy;
    LazyStep(turns, p, Rest(b));
  }

  // The input has run out: the held byte goes out and the block at hand is
  // closed, as the last one at the end of the stream.
  method End(s: Deflate, flush: Flush) returns (result: BlockState)
    requires SlowInv(s) && s.Going() && s.lookahead == 0 && s.nextIn == []
    modifies s`insert, s`given, s`sent, s`symBuf, s`pending, s`availOut, s`produced, s`delivered, s`blockStart,
      s`matchAvailable, s`turns
    ensures SlowInv(s) && !s.matchAvailable
    ensures s.given == old(s.given) || (|s.given| == |old(s.given)| + 1 && old(s.given) < s.given)
    ensures NewTurns(old(s.turns), s.turns, s.floor, s.fed)
    ensures result == NeedMore ==> flush != Finish && s.availOut == 0
    ensures result == FinishStarted ==> flush == Finish && s.availOut == 0
    ensures result == FinishDone ==> flush == Finish && s.pending == 0
    ensures result == BlockDone ==> flush != Finish
    ensures s.AllSent()
    ensures if flush == Finish then s.Ended() else s.Going()
  {
    hide Deflate.Core, Deflate.Cursor, Deflate.FedFrom, Deflate.AllSent, Explains, HashParameters, Deflate.Followed,
      LazyRun, Lazy, Deflate.Going, Deflate.Ended, NewTurns;
    EmitLast(s);
    ghost var blocks, syms, all := s.given, s.symBuf, s.sent;
    result := s.EndOfInput(flush);
    assert blocks + [] == blocks && all + [] == all;
    assert s.sent + s.symBuf == all + syms;
  }

  // The caller appends input.
  method Append(s: Deflate, more: seq<byte>)
    requires SlowInv(s)
    modifies s`nextIn, s`fed
    ensures SlowInv(s) && s.fed == old(s.fed) + more && s.nextIn == old(s.nextIn) + more
  {
    hide Deflate.Valid, Deflate.Tallied, TrueMatch, Parsed;
    s.nextIn := s.nextIn + more;
    s.fed := s.fed + more;
  }

  method DeflateSlow(s: Deflate, flush: Flush) returns (result: BlockState)
    requires SlowInv(s) && s.Going()
    modifies s`insH, s`h, s`matchStart, s`matchAt, s`matchLength, s`strstart, s`lookahead, s`insert, s`symBuf, s`given,
      s`sent, s`pending, s`availOut, s`produced, s`delivered, s`blockStart, s`turns, s`nextIn, s`highWater,
      s`written, s`prevLength, s`prevMatch, s`matchAvailable, s.window, s.head, s.prev
    ensures SlowInv(s) && CutBlocks(old(s.given), s.given, s.symEnd)
    ensures NewTurns(old(s.turns), s.turns, s.floor, s.fed)
    ensures result == NeedMore ==> s.availOut == 0 || (flush == NoFlush && s.nextIn == [])
    ensures result == FinishStarted ==> flush == Finish && s.availOut == 0
    ensures result == FinishDone ==> flush == Finish && s.pending == 0
    ensures result == BlockDone ==> Flushes(flush)
    ensures result != NeedMore ==> s.AllSent() && s.lookahead == 0 && !s.matchAvailable
    ensures if flush == Finish && result != NeedMore then s.Ended() else s.Going()
  {
    hide SlowCore, Parsed, Deflate.Valid, Deflate.Fed, Deflate.AllSent, HashParameters, Deflate.Going, Deflate.Ended,
      NewTurns, FullBlocks, CutBlocks;
    NoNewTurns(s.turns, s.floor, s.fed);
    NoBlocks(s.given, s.symEnd);
    while true
      invariant SlowInv(s) && FullBlocks(old(s.given), s.given, s.symEnd)
      invariant s.Going() && NewTurns(old(s.turns), s.turns, s.floor, s.fed)
      decreases |s.fed| - (s.h.base + s.strstart)
    {
      CoreShape(s);
      s.Progress();
      Prepare(s);
      Unfinished(old(s.given), s.given, s.symEnd);
      if s.lookahead < MIN_LOOKAHEAD && flush == NoFlush {
        return NeedMore;
      }
      if s.lookahead == 0 {
        break;
      }
      ghost var turns, blocks := s.turns, s.given;
      var stop := Step(s);
      MoreTurns(old(s.turns), turns, s.turns, s.floor, s.fed);
      MoreBlocks(old(s.given), blocks, s.given, s.symEnd);
      Unfinished(old(s.given), s.given, s.symEnd);
      CoreShape(s);
      s.Progress();
      if stop {
        return NeedMore;
      }
    }
    ghost var turns, blocks := s.turns, s.given;
    result := End(s, flush);
    Finished(old(s.given), blocks, s.given, s.symEnd);
    MoreTurns(old(s.turns), turns, s.turns, s.floor, s.fed);
  }
}
