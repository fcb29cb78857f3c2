// The state of zlib's compressor and the operations that its match finders
// share: reading input, sliding the window, inserting strings, searching for
// the longest match, and handing symbols and blocks to the Huffman coder.
module DeflateState {
  import opened Basics
  import opened Lz77
  import opened Powers
  import opened DeflateHash
  import opened DeflateDictionary
  import opened DeflateModes
  import opened DeflateBlocks
  import opened DeflateSearch
  import opened DeflateTurns

  const MIN_MATCH := 3
  const MAX_MATCH := 258
  const MIN_LOOKAHEAD := MAX_MATCH + MIN_MATCH + 1
  const WIN_INIT := MAX_MATCH

  // match_start and prev_match are unsigned 32-bit fields that may wrap.
  const WORD := 0x1_0000_0000

  // Subtracting under wrap-around, before or after another subtraction.
  lemma WrapSub(a: int, b: int)
    ensures (a % WORD - b) % WORD == (a - b) % WORD
  {
  }

  // The contents of an array, known by its elements only.
  ghost function Contents<T>(a: array<T>): (s: seq<T>)
    reads a
    ensures |s| == a.Length
    ensures forall i | 0 <= i < |s| :: s[i] == a[i]
  {
    a[..]
  }

  class Deflate {
    // Set once by deflateInit2_ and lm_init.
    const wSize: nat
    const hashShift: bv6
    const hashMask: bv32
    const maxChainLength: nat
    const maxLazyMatch: nat
    const goodMatch: nat
    const niceMatch: nat
    const filtered: bool
    const lazy: bool
    const symEnd: nat

    const window: array<byte>
    const prev: array<Pos>
    const head: array<Pos>

    var strstart: nat
    var lookahead: nat
    var insert: nat
    var insH: bv32
    var matchStart: nat
    var matchLength: nat
    var prevMatch: nat
    var prevLength: nat
    var matchAvailable: bool
    var blockStart: int
    var highWater: nat

    // FINISH_STATE has been entered; the flush code of the previous call.
    var finished: bool
    var lastFlush: int

    // The stream: input still to be read, room in the output buffer, bytes
    // waiting for it, and the symbols of the current block.
    var nextIn: seq<byte>
    var availOut: nat
    var pending: nat
    var symBuf: seq<Symbol>

    // All input supplied so far: what was read, then nextIn.
    ghost var fed: seq<byte>
    // All input read so far and the strings inserted, on absolute positions.
    ghost var h: History
    // What the Huffman coder was given, and the symbols in it.
    ghost var given: seq<Given>
    ghost var sent: seq<Symbol>
    // Bytes left in pending, bytes that went out from there, and the room that
    // was supplied for them.
    ghost var produced: nat
    ghost var delivered: nat
    ghost var granted: nat
    // Where the history was last forgotten: the input position, and the number
    // of symbols sent by then.
    ghost var floor: nat
    ghost var mark: nat
    // The turns that the match finder took.
    ghost var turns: seq<Turn>
    // The absolute position that matchStart stands for.
    ghost var matchAt: nat
    // window[..written] has been written at least once.
    ghost var written: nat

    function MaxDist(): (r: nat)
      requires Shape()
      ensures r == wSize - 262
    {
      wSize - MIN_LOOKAHEAD
    }

    ghost predicate Shape() {
      && 0x200 <= wSize <= 0x8000
      && HashParameters(hashShift, hashMask)
      && window.Length == 2 * wSize
      && prev.Length == wSize
      && head.Length == HashSize(hashMask)
      && head != prev && window as object != head && window as object != prev
      && 4 <= maxChainLength
      && niceMatch <= MAX_MATCH
      && 1 < symEnd
    }

    // One past the window index of the last byte read.
    ghost function DataEnd(): int
      reads this`h
    {
      |h.input| - h.base
    }

    // The window holds the tail of the input.
    ghost predicate WindowHolds()
      reads this`h, window
    {
      && 0 <= DataEnd() <= window.Length
      && forall i | 0 <= i < DataEnd() :: window[i] == h.input[h.base + i]
    }

    // No input is lost or reordered between the caller and the window.
    ghost predicate Fed()
      reads this`h, this`nextIn, this`fed
    {
      FedFrom(h.input)
    }

    ghost predicate FedFrom(input: seq<byte>)
      reads this`nextIn, this`fed
    {
      fed == input + nextIn
    }

    ghost predicate Tables()
      requires Shape()
      reads this`h, head, prev
    {
      && Coherent(h, head[..], prev[..], hashShift, hashMask)
      && (h.end == 0 || h.end + 2 <= |h.input|)
    }

    ghost predicate Core()
      reads this`h, this`written, this`highWater, window, head, prev
    {
      && Shape()
      && 0 <= DataEnd() <= written <= 2 * wSize
      && highWater <= written
      && WindowHolds()
      && Tables()
    }

    lemma CoreShape()
      requires Core()
      ensures Shape() && 0 <= DataEnd() <= written <= window.Length
    {
    }

    // ins_h is ready for the string at str.
    ghost predicate RolledAt(str: nat)
      requires HashParameters(hashShift, hashMask)
      reads this`insH, this`h
    {
      h.base + str + 1 < |h.input| ==>
        Rolled(insH, h.input[h.base + str], h.input[h.base + str + 1], hashShift, hashMask)
    }

    ghost predicate MatchIndexed()
      reads this`matchStart, this`matchAt, this`h
    {
      matchStart == (matchAt - h.base) % WORD
    }

    // strstart, lookahead, insert, ins_h and match_start agree with the data.
    ghost predicate Cursor()
      requires Shape()
      reads this`strstart, this`lookahead, this`insert, this`insH, this`h, this`matchStart, this`matchAt
    {
      && strstart + lookahead == DataEnd()
      && insert <= strstart
      && h.end <= h.base + strstart - insert
      && (insert > 0 ==> lookahead + insert < MIN_MATCH)
      && (lookahead >= MIN_MATCH ==> RolledAt(strstart))
      && MatchIndexed()
    }

    lemma CursorEnd()
      requires Shape() && Cursor()
      ensures strstart + lookahead == DataEnd()
    {
    }

    // What holds whenever a match finder is about to look at strstart.
    ghost predicate Valid()
      reads this`h, this`written, this`highWater, window, head, prev
      reads this`strstart, this`lookahead, this`insert, this`insH, this`matchStart, this`matchAt
    {
      Core() && Cursor()
    }

    // The turns taken go with what is in the dictionary and the window.
    ghost predicate Followed()
      requires Shape()
      reads this`turns, this`h, this`floor, this`strstart
    {
      Follows(turns, h, strstart, floor, MaxDist())
    }

    // ----- read_buf

    method ReadBuf(at: nat, size: nat) returns (n: nat)
      requires at + size <= window.Length
      modifies window, this`nextIn
      ensures n == Min(|old(nextIn)|, size)
      ensures nextIn == old(nextIn)[n..]
      ensures forall i | 0 <= i < at :: window[i] == old(window[i])
      ensures forall i | at <= i < at + n :: window[i] == old(nextIn)[i - at]
    {
      n := |nextIn|;
      if n > size {
        n := size;
      }
      if n == 0 {
        return;
      }
      forall i | 0 <= i < n {
        window[at + i] := nextIn[i];
      }
      nextIn := nextIn[n..];
    }

    // ----- INSERT_STRING

    method InsertString(str: nat) returns (hashHead: nat)
      requires Core()
      requires h.base + str + 2 < |h.input| && h.end <= h.base + str && RolledAt(str)
      modifies this`insH, this`h, head, prev
      ensures Core() && h == Inserted(old(h), str)
      ensures RolledAt(str + 1)
      ensures str < 2 * wSize && hashHead == prev[Slot(str, wSize)]
      ensures hashHead != 0 ==>
        hashHead < str && OnChain(h, hashHead, ChainAt(h, h.base + str, hashShift, hashMask), hashShift, hashMask)
    {
      hide Chain, Index, HashSize, HashParameters, Hash3, UpdateHash, Rolled, Coherent;
      var p := h.base + str;
      assert window[str] == h.input[p] && window[str + 1] == h.input[p + 1] && window[str + 2] == h.input[p + 2];
      UpdateRolled(insH, h.input[p], h.input[p + 1], h.input[p + 2], hashShift, hashMask);
      InsertCoherent(h, head[..], prev[..], str, hashShift, hashMask);
      insH := UpdateHash(insH, window[str + 2], hashShift, hashMask);
      var c := Index(insH);
      hashHead := head[c];
      HeadOnChain(c, str);
      prev[Slot(str, wSize)] := head[c];
      head[c] := str;
      assert prev[..] == old(prev[..])[Slot(str, wSize) := hashHead as Pos];
      assert head[..] == old(head[..])[c := str as Pos];
      h := Inserted(h, str);
    }

    // The same where the older string is of no interest.
    method Insert(str: nat)
      requires Core()
      requires h.base + str + 2 < |h.input| && h.end <= h.base + str && RolledAt(str)
      modifies this`insH, this`h, head, prev
      ensures Core() && RolledAt(str + 1)
      ensures h.input == old(h.input) && h.base == old(h.base) && h.end == h.base + str + 1
      ensures h.inserted == old(h.inserted) + {h.base + str}
    {
      hide Core, RolledAt, OnChain, ChainAt, Slot;
      var _ := InsertString(str);
    }

    lemma HeadOnChain(c: nat, str: nat)
      requires Core() && c < head.Length && h.end <= h.base + str
      ensures head[c] != 0 ==> head[c] < str && OnChain(h, head[c], c, hashShift, hashMask)
    {
      hide Chain, Index, HashSize, HashParameters, WindowHolds;
      assert head[..][c] == head[c];
    }

    // ----- slide_hash

    method SlideEntries(table: array<Pos>)
      modifies table
      ensures table[..] == SlideTable(old(table[..]), wSize)
    {
      var n := table.Length;
      while n > 0
        invariant 0 <= n <= table.Length
        invariant forall i | 0 <= i < n :: table[i] == old(table[i])
        invariant forall i | n <= i < table.Length :: table[i] == SlideTable(old(table[..]), wSize)[i]
      {
        n := n - 1;
        var m := table[n];
        table[n] := if m >= wSize then m - wSize else 0;
      }
    }

    method SlideHash()
      requires Shape() && Coherent(h, head[..], prev[..], hashShift, hashMask)
      modifies head, prev
      ensures head[..] == SlideTable(old(head[..]), wSize)
      ensures prev[..] == SlideTable(old(prev[..]), wSize)
      ensures Coherent(Slid(h, wSize), head[..], prev[..], hashShift, hashMask)
    {
      hide HashSize, HashParameters, Coherent, SlideTable;
      SlideCoherent(h, head[..], prev[..], hashShift, hashMask);
      SlideEntries(head);
      assert prev[..] == old(prev[..]);
      SlideEntries(prev);
    }

    // ----- fill_window

    method CopyDown(n: nat)
      requires Shape() && n <= wSize
      modifies window
      ensures forall i | 0 <= i < n :: window[i] == old(window[wSize + i])
    {
      forall i | 0 <= i < n {
        window[i] := window[wSize + i];
      }
    }

    // Move the upper half of the window to the lower half.
    method SlideWindow(more: nat)
      requires Core() && strstart + lookahead == DataEnd()
      requires wSize + MaxDist() <= strstart
      requires more == 2 * wSize - lookahead - strstart
      requires MatchIndexed()
      modifies window, head, prev, this`matchStart, this`strstart, this`blockStart, this`insert, this`h
      ensures Core() && h == Slid(old(h), wSize)
      ensures strstart == old(strstart) - wSize
      ensures blockStart == old(blockStart) - wSize
      ensures insert == Min(old(insert), strstart)
      ensures MatchIndexed() && matchStart == (old(matchStart) - wSize) % 0x1_0000_0000
    {
      hide Chain, Index, HashSize, HashParameters, Hash3, UpdateHash, Rolled, Coherent, SlideTable;
      CopyDown(wSize - more);
      assert head[..] == old(head[..]) && prev[..] == old(prev[..]);
      WrapSub(matchAt - h.base, wSize);
      matchStart := (matchStart - wSize) % WORD;
      strstart := strstart - wSize;
      blockStart := blockStart - wSize;
      insert := Min(insert, strstart);
      SlideHash();
      h := Slid(h, wSize);
    }

    lemma WindowAt(i: nat)
      requires Core() && i < DataEnd()
      ensures window[i] == h.input[h.base + i]
    {
    }

    // ins_h = window[str], and one update.
    method StartHash(str: nat)
      requires Core() && str + 1 < DataEnd()
      modifies this`insH
      ensures Core() && RolledAt(str)
    {
      hide Chain, Index, HashSize, HashParameters, Hash3, UpdateHash, Rolled, Coherent;
      WindowAt(str);
      WindowAt(str + 1);
      StartRolled(window[str], window[str + 1], hashShift, hashMask);
      insH := UpdateHash(window[str] as bv32, window[str + 1], hashShift, hashMask);
    }

    // Start the rolling hash over at the oldest string not inserted yet, and
    // insert the strings that the new input completes.
    method InsertPending()
      requires Core() && strstart + lookahead == DataEnd()
      requires insert <= strstart && h.end <= h.base + strstart - insert
      requires MatchIndexed()
      requires lookahead + insert >= MIN_MATCH
      modifies this`insH, this`h, this`insert, head, prev
      ensures Valid()
      ensures h.input == old(h.input) && h.base == old(h.base) && insert <= old(insert)
      ensures Grown(old(h.inserted), h.inserted, h.base + strstart - old(insert), h.base + strstart - insert)
      ensures insert == 0 || lookahead + insert < MIN_MATCH
    {
      hide Core, RolledAt, HashSize, HashParameters, Grown, Slot;
      CoreShape();
      var str := strstart - insert;
      StartHash(str);
      ghost var from, all := h.base + str, h.inserted;
      GrownNone(all, from, from);
      while insert > 0
        invariant Core() && h.input == old(h.input) && h.base == old(h.base)
        invariant Grown(all, h.inserted, from, h.base + str)
        invariant insert <= old(insert) && insert <= strstart && str == strstart - insert && h.end <= h.base + str
        invariant RolledAt(str)
        invariant lookahead + insert >= MIN_MATCH
      {
        GrownNext(all, h.inserted, from, h.base + str);
        Insert(str);
        str := str + 1;
        insert := insert - 1;
        if lookahead + insert < MIN_MATCH {
          break;
        }
      }
    }

    method ZeroRange(from: nat, count: nat)
      requires Core() && DataEnd() <= from <= written && from + count <= 2 * wSize
      modifies window, this`highWater, this`written
      ensures Core()
      ensures highWater == from + count && from + count <= written
      ensures forall i | from <= i < from + count :: window[i] == 0
    {
      hide Coherent, HashParameters, HashSize;
      forall i | 0 <= i < count {
        window[from + i] := 0;
      }
      highWater := from + count;
      if written < highWater {
        written := highWater;
      }
    }

    // Zero WIN_INIT bytes past the data, where the longest-match search may
    // look without regard to lookahead.
    method ZeroAhead()
      requires Valid()
      modifies window, this`highWater, this`written
      ensures Valid()
      ensures Min(2 * wSize, strstart + lookahead + WIN_INIT) <= written
    {
      hide Cursor, WindowHolds, Tables, HashSize, HashParameters;
      CursorEnd();
      if highWater < 2 * wSize {
        var curr := strstart + lookahead;
        if highWater < curr {
          var init := 2 * wSize - curr;
          if init > WIN_INIT {
            init := WIN_INIT;
          }
          ZeroRange(curr, init);
        } else if highWater < curr + WIN_INIT {
          var init := curr + WIN_INIT - highWater;
          if init > 2 * wSize - highWater {
            init := 2 * wSize - highWater;
          }
          ZeroRange(highWater, init);
        }
      }
    }

    // Append input after the data in the window; `more` bytes are free there.
    method ReadMore(more: nat)
      requires Core() && strstart + lookahead == DataEnd() && more == 2 * wSize - lookahead - strstart
      requires 2 <= more
      modifies window, this`nextIn, this`lookahead, this`h, this`written
      ensures Core() && strstart + lookahead == DataEnd()
      ensures old(h.input) <= h.input && h == Extended(old(h), h.input[|old(h.input)|..])
      ensures old(Fed()) ==> Fed()
      ensures |nextIn| == |old(nextIn)| - Min(|old(nextIn)|, more)
      ensures lookahead == old(lookahead) + Min(|old(nextIn)|, more)
    {
      hide Tables, HashSize, HashParameters;
      ghost var chunk := nextIn[..Min(|nextIn|, more)];
      var end := strstart + lookahead;
      var n := ReadBuf(end, more);
      lookahead := lookahead + n;
      h := Extended(h, chunk);
      if written < end + n {
        written := end + n;
      }
      TablesExtended(chunk);
    }

    twostate lemma TablesExtended(chunk: seq<byte>)
      requires Shape() && old(Tables()) && unchanged(head) && unchanged(prev)
      requires h == Extended(old(h), chunk) && old(|h.input|) + |chunk| <= old(h.base) + 2 * wSize
      ensures Tables()
    {
      hide HashSize, HashParameters, Coherent;
      ExtendCoherent(old(h), chunk, old(head[..]), old(prev[..]), hashShift, hashMask);
      assert head[..] == old(head[..]) && prev[..] == old(prev[..]);
    }

    // One round of fill_window's loop.
    method FillOnce()
      requires Valid() && lookahead < MIN_LOOKAHEAD
      modifies window, head, prev, this`matchStart, this`strstart, this`blockStart, this`insert, this`h,
        this`nextIn, this`lookahead, this`insH, this`written
      ensures Valid()
      ensures old(h.input) <= h.input && (old(Fed()) ==> Fed())
      ensures old(h.base) <= h.base && old(h.inserted) <= h.inserted
      ensures h.base + strstart == old(h.base + strstart)
      ensures h.base + blockStart == old(h.base + blockStart)
      ensures strstart == old(strstart) || MaxDist() <= strstart
      ensures insert <= old(insert)
      ensures strstart < wSize + MaxDist()
      ensures old(lookahead) <= lookahead
      ensures if old(nextIn) == [] then nextIn == [] else |nextIn| < |old(nextIn)|
    {
      hide HashSize, HashParameters, Rolled, Core, FedFrom;
      CoreShape();
      var more := 2 * wSize - lookahead - strstart;
      if strstart >= wSize + MaxDist() {
        SlideWindow(more);
        more := more + wSize;
      }
      if nextIn == [] {
        return;
      }
      ReadMore(more);
      if lookahead + insert >= MIN_MATCH {
        InsertPending();
      }
    }

    // Read as much input as fits, sliding the window first when strstart has
    // moved too far up.
    method FillWindow()
      requires Valid() && lookahead < MIN_LOOKAHEAD
      modifies window, head, prev, this`matchStart, this`strstart, this`blockStart, this`insert, this`h,
        this`nextIn, this`lookahead, this`insH, this`highWater, this`written
      ensures Valid()
      ensures old(h.input) <= h.input && (old(Fed()) ==> Fed())
      ensures old(h.base) <= h.base && old(h.inserted) <= h.inserted
      ensures h.base + strstart == old(h.base + strstart)
      ensures h.base + blockStart == old(h.base + blockStart)
      ensures strstart == old(strstart) || MaxDist() <= strstart
      ensures insert <= old(insert)
      ensures lookahead >= MIN_LOOKAHEAD || nextIn == []
      ensures old(lookahead) <= lookahead
      ensures strstart <= 2 * wSize - MIN_LOOKAHEAD
      ensures Min(2 * wSize, strstart + lookahead + WIN_INIT) <= written
    {
      hide Cursor, Core, FedFrom, HashSize, HashParameters;
      CoreShape();
      while true
        invariant Valid() && lookahead < MIN_LOOKAHEAD
        invariant old(h.input) <= h.input && (old(Fed()) ==> Fed())
        invariant old(h.base) <= h.base && old(h.inserted) <= h.inserted
        invariant h.base + strstart == old(h.base + strstart)
        invariant h.base + blockStart == old(h.base + blockStart)
        invariant strstart == old(strstart) || MaxDist() <= strstart
        invariant insert <= old(insert)
        invariant old(lookahead) <= lookahead
        decreases |nextIn|
      {
        FillOnce();
        if nextIn == [] || lookahead >= MIN_LOOKAHEAD {
          break;
        }
      }
      ZeroAhead();
    }

    // ----- longest_match

    // Compare the string at cur with the one at strstart, whose first three
    // bytes are equal, eight bytes a round; the result is their common length,
    // at most MAX_MATCH.
    method CompareStrings(cur: nat) returns (scan: nat)
      requires cur < strstart && strstart + MAX_MATCH < written <= window.Length
      requires Repeats(Contents(window), cur, strstart, 3)
      ensures 3 <= scan <= MAX_MATCH
      ensures Repeats(Contents(window), cur, strstart, scan)
      ensures scan < MAX_MATCH ==> window[cur + scan] != window[strstart + scan]
    {
      hide Contents, Repeats;
      ghost var w := Contents(window);
      scan := 2;
      var differ := false;
      while !differ && scan < MAX_MATCH
        invariant 2 <= scan <= MAX_MATCH
        invariant if differ then 3 <= scan else (MAX_MATCH - scan) % 8 == 0
        invariant Repeats(w, cur, strstart, if differ then scan else scan + 1)
        invariant differ ==> w[cur + scan] != w[strstart + scan]
        decreases !differ, MAX_MATCH - scan
      {
        var start, round := scan, 0;
        assert start + 8 <= MAX_MATCH;
        while !differ && round < 8
          invariant 0 <= round <= 8 && scan == start + round
          invariant differ ==> 3 <= scan
          invariant Repeats(w, cur, strstart, if differ then scan else scan + 1)
          invariant differ ==> w[cur + scan] != w[strstart + scan]
          decreases !differ, 8 - round
        {
          scan := scan + 1;
          if window[cur + scan] == window[strstart + scan] {
            RepeatsNext(w, cur, strstart, scan);
          } else {
            differ := true;
          }
          round := round + 1;
        }
      }
      if !differ {
        RepeatsShorter(w, cur, strstart, scan + 1, scan);
      }
    }

    // strstart has just been inserted and the bytes that a search may look at
    // are initialised.
    ghost predicate Searchable()
      reads this`h, this`written, this`highWater, window, head, prev, this`strstart, this`lookahead
    {
      && Core()
      && strstart + lookahead == DataEnd() && MIN_MATCH <= lookahead
      && strstart + MAX_MATCH < written
      && h.base + strstart in h.inserted && h.end == h.base + strstart + 1
    }

    // A candidate on the chain of strstart, at most MaxDist() back.
    ghost predicate Candidate(cur: nat)
      requires Core() && strstart + lookahead == DataEnd() && MIN_MATCH <= lookahead
      reads this`h, this`written, this`highWater, window, head, prev, this`strstart, this`lookahead
    {
      && 0 < cur < strstart && strstart - cur <= MaxDist()
      && OnChain(h, cur, ChainAt(h, h.base + strstart, hashShift, hashMask), hashShift, hashMask)
    }

    // The hash decides the third byte once the first two agree.
    lemma ThirdByte(cur: nat)
      requires Searchable() && Candidate(cur)
      requires window[cur] == window[strstart] && window[cur + 1] == window[strstart + 1]
      ensures Repeats(Contents(window), cur, strstart, 3)
    {
      hide Contents, Chain, HashParameters, HashSize, Coherent;
      var p, q := h.base + cur, h.base + strstart;
      assert h.input[p] == window[cur] && h.input[p + 1] == window[cur + 1] && h.input[p + 2] == window[cur + 2];
      assert h.input[q] == window[strstart] && h.input[q + 1] == window[strstart + 1]
          && h.input[q + 2] == window[strstart + 2];
      ThirdByteEqual(h.input[p], h.input[p + 1], h.input[p + 2], h.input[q + 2], hashShift, hashMask);
      assert Contents(window)[cur..cur + 3] == [window[cur], window[cur + 1], window[cur + 2]];
      assert Contents(window)[strstart..strstart + 3] == [window[strstart], window[strstart + 1],
        window[strstart + 2]];
    }

    lemma SearchRoom()
      requires Searchable()
      ensures Core() && Shape() && strstart + lookahead == DataEnd() && MIN_MATCH <= lookahead
      ensures strstart + MAX_MATCH < window.Length
    {
      hide WindowHolds, Tables;
    }

    lemma CandidateNear(cur: nat)
      requires Searchable() && Candidate(cur)
      ensures 0 < cur < strstart && strstart - cur <= MaxDist() && cur < 2 * wSize
    {
    }

    // prev[] leads from one candidate to an older one, or off the chain.
    lemma NextCandidate(cur: nat)
      requires Searchable() && Candidate(cur)
      ensures cur < 2 * wSize
      ensures var older := prev[Slot(cur, wSize)];
              older > 0 && strstart - older <= MaxDist() ==> older < cur && Candidate(older)
    {
      hide Chain, HashParameters, HashSize, Coherent;
      assert DataEnd() <= 2 * wSize;
      assert Live(h, cur, wSize);
      FollowLink(h, head[..], prev[..], cur, hashShift, hashMask);
    }

    // What a search establishes about a length it returns above prev_length.
    ghost predicate MatchFound(from: nat, len: nat)
      reads this`h, this`strstart
    {
      && h.base + from < h.base + strstart
      && Repeats(h.input, h.base + from, h.base + strstart, len)
    }

    lemma FromWindow(cur: nat, len: nat)
      requires Core() && Repeats(Contents(window), cur, strstart, len) && strstart + len <= DataEnd()
      ensures MatchFound(cur, len)
    {
      hide Contents, Core;
      CoreShape();
      WindowSlice(cur, len);
      WindowSlice(strstart, len);
    }

    lemma WindowSlice(i: nat, len: nat)
      requires Core() && i + len <= DataEnd()
      ensures i + len <= window.Length
      ensures h.input[h.base + i..h.base + i + len] == Contents(window)[i..i + len]
    {
      hide Contents, Tables;
      var input, w := h.input[h.base + i..h.base + i + len], Contents(window)[i..i + len];
      forall k | 0 <= k < len ensures input[k] == w[k] {
        WindowAt(i + k);
      }
    }

    // match_start, set once per search to the last candidate that improved on
    // the best length.
    method SetMatch(cur: nat)
      requires cur < WORD
      modifies this`matchStart, this`matchAt
      ensures matchStart == cur && matchAt == h.base + cur && MatchIndexed()
    {
      matchStart := cur;
      matchAt := h.base + cur;
    }

    // The len bytes at cur occur again at strstart, in the window.
    ghost predicate WindowRepeats(cur: nat, len: nat)
      reads window, this`strstart
    {
      Repeats(Contents(window), cur, strstart, len)
    }

    // The string at cur does not repeat at strstart for more than len bytes.
    ghost predicate NoBetter(cur: nat, len: nat)
      reads window, this`strstart
    {
      forall r: nat | len < r <= MAX_MATCH :: !WindowRepeats(cur, r)
    }

    // Two strings that differ at some byte do not repeat any further.
    lemma Differs(cur: nat, k: nat)
      requires cur < strstart && strstart + k < window.Length && window[cur + k] != window[strstart + k]
      ensures forall len: nat | k <= len :: NoBetter(cur, len)
    {
      forall r: nat | k < r ensures !WindowRepeats(cur, r) {
        if WindowRepeats(cur, r) {
          RepeatsAt(Contents(window), cur, strstart, r, k);
        }
      }
    }

    lemma NoBetterAbove(cur: nat, l: nat, bestLen: nat)
      requires l <= MAX_MATCH && (l < MAX_MATCH ==> NoBetter(cur, l))
      ensures NoBetter(cur, if l > bestLen then l else bestLen)
    {
    }

    // The body of longest_match's loop: skip the candidate unless it can beat
    // bestLen, otherwise measure it. A result not above bestLen is a skip.
    method Measure(cur: nat, bestLen: nat, scanEnd1: byte, scanEnd: byte) returns (l: nat)
      requires Searchable() && Candidate(cur) && 1 <= bestLen <= MAX_MATCH
      requires scanEnd1 == window[strstart + bestLen - 1] && scanEnd == window[strstart + bestLen]
      ensures l <= MAX_MATCH
      ensures l > bestLen ==> WindowRepeats(cur, l)
      ensures NoBetter(cur, if l > bestLen then l else bestLen)
    {
      hide Contents, Repeats, Core, OnChain, ChainAt, NoBetter;
      CoreShape();
      if window[cur + bestLen] == scanEnd && window[cur + bestLen - 1] == scanEnd1
        && window[cur] == window[strstart] && window[cur + 1] == window[strstart + 1] {
        ThirdByte(cur);
        l := CompareStrings(cur);
        if l < MAX_MATCH {
          Differs(cur, l);
        }
        NoBetterAbove(cur, l, bestLen);
      } else {
        l := 0;
        Differs(cur, if window[cur] != window[strstart] then 0
                else if window[cur + 1] != window[strstart + 1] then 1
                else if window[cur + bestLen - 1] != scanEnd1 then bestLen - 1 else bestLen);
      }
    }

    // A repetition in the window, cut to the lookahead, is one in the input.
    lemma Clip(from: nat, bestLen: nat, len: nat)
      requires Searchable() && WindowRepeats(from, bestLen) && len <= bestLen && len <= lookahead
      ensures MatchFound(from, len)
    {
      hide Contents, Repeats;
      RepeatsShorter(Contents(window), from, strstart, bestLen, len);
      FromWindow(from, len);
    }

    ghost function TheSettings(): Settings
      requires Shape()
    {
      Settings(hashShift, hashMask, MaxDist(), maxChainLength, goodMatch, maxLazyMatch, niceMatch, filtered)
    }

    // How far down the window a match may start.
    ghost function SearchLimit(): nat
      requires Shape()
      reads this`strstart
    {
      if strstart > MaxDist() then strstart - MaxDist() else 0
    }

    // The strings that a search from hashHead may try.
    ghost function MayTry(hashHead: nat): seq<nat>
      requires Shape()
      reads this`strstart, this`prevLength, prev
    {
      Tried(prev[..], hashHead, SearchLimit(), Chains(TheSettings(), prevLength))
    }

    // What is still to be tried after cur.
    ghost function ToTry(cur: nat, n: nat): seq<nat>
      requires Shape() && cur < 2 * wSize
      reads this`strstart, prev
    {
      Visited(prev[..], prev[Slot(cur, wSize)], SearchLimit(), n)
    }

    ghost predicate AllBeaten(tried: seq<nat>, len: nat)
      reads window, this`strstart
    {
      forall i | 0 <= i < |tried| :: NoBetter(tried[i], len)
    }

    lemma AllBeatenNext(tried: seq<nat>, len: nat, cur: nat, longer: nat)
      requires AllBeaten(tried, len) && len <= longer && NoBetter(cur, longer)
      ensures AllBeaten(tried + [cur], longer)
    {
      hide WindowRepeats;
      forall i | 0 <= i < |tried| ensures NoBetter(tried[i], longer) {
        assert NoBetter(tried[i], len);
      }
    }

    // The best of all that may be tried, cut to the lookahead.
    lemma Beaten(tried: seq<nat>, bestLen: nat)
      requires Searchable() && AllBeaten(tried, bestLen)
      ensures NoneLonger(h, strstart, tried, Min(bestLen, lookahead), Min(niceMatch, lookahead))
    {
      hide Contents, Repeats, WindowRepeats, OnChain, ChainAt;
      forall i, r: nat | 0 <= i < |tried| && r <= 258 && RepeatsFrom(h, tried[i], strstart, r)
        ensures r <= Min(bestLen, lookahead)
      {
        ToWindow(tried[i], r);
        assert NoBetter(tried[i], bestLen);
      }
    }

    lemma ToWindow(cur: nat, r: nat)
      requires Searchable() && RepeatsFrom(h, cur, strstart, r)
      ensures WindowRepeats(cur, r) && r <= lookahead
    {
      hide Contents, Core, OnChain, ChainAt;
      CoreShape();
      RepeatsBounds(h.input, h.base + cur, h.base + strstart, r);
      WindowSlice(cur, r);
      WindowSlice(strstart, r);
    }

    lemma FirstToTry(hashHead: nat)
      requires Searchable() && Candidate(hashHead) && 0 < Chains(TheSettings(), prevLength)
      ensures hashHead < 2 * wSize
      ensures MayTry(hashHead) == [hashHead] + ToTry(hashHead, Chains(TheSettings(), prevLength) - 1)
    {
      hide Visited, Core, OnChain, ChainAt;
      CoreShape();
    }

    // The next string to try, or none.
    lemma NextToTry(cur: nat, n: nat)
      requires Shape() && cur < 2 * wSize
      ensures var next := prev[Slot(cur, wSize)];
        if next <= SearchLimit() || n == 0 then ToTry(cur, n) == []
        else next < 2 * wSize ==> ToTry(cur, n) == [next] + ToTry(next, n - 1)
    {
    }

    // The best match so far, and where it is if the search has found it.
    ghost predicate Leading(best: nat, bestLen: nat)
      requires Shape()
      reads window, this`strstart, this`prevLength
    {
      && prevLength <= bestLen <= MAX_MATCH
      && (bestLen > prevLength ==> best < strstart && strstart - best <= MaxDist() && WindowRepeats(best, bestLen))
    }

    // Of the strings, the k-th is best, and those before it repeat for no more than
    // m bytes: fewer than len, and not so many that the search would have ended.
    ghost predicate FirstAt(tried: seq<nat>, k: nat, m: nat, best: nat, len: nat)
      reads window, this`strstart, this`prevLength, this`lookahead
    {
      && k < |tried| && tried[k] == best && m < len
      && (m <= prevLength || m < Min(niceMatch, lookahead))
      && AllBeaten(tried[..k], m)
    }

    // The best string is the first, and so the nearest, of its length.
    ghost predicate First(tried: seq<nat>, best: nat, len: nat)
      reads window, this`strstart, this`prevLength, this`lookahead
    {
      exists k: nat, m: nat :: FirstAt(tried, k, m, best, len)
    }

    // A search that has tried some of the strings that it may try, with at most
    // n more to go from cur on.
    ghost predicate Searching(hashHead: nat, cur: nat, bestLen: nat, n: nat, tried: seq<nat>)
      reads this`h, this`written, this`highWater, window, head, prev, this`strstart, this`lookahead, this`prevLength
    {
      && Searchable() && Candidate(cur) && cur < 2 * wSize && 0 < n
      && MayTry(hashHead) == tried + ([cur] + ToTry(cur, n - 1)) && AllBeaten(tried, bestLen)
    }

    lemma SearchStarts(hashHead: nat, bestLen: nat)
      requires Searchable() && Candidate(hashHead) && 0 < Chains(TheSettings(), prevLength)
      ensures Searching(hashHead, hashHead, bestLen, Chains(TheSettings(), prevLength), [])
    {
      hide Searchable, Candidate, MayTry, ToTry, Core;
      CandidateNear(hashHead);
      FirstToTry(hashHead);
    }

    // The string at cur has been tried: the next one, or the end of the search.
    lemma SearchGoesOn(hashHead: nat, cur: nat, bestLen: nat, n: nat, tried: seq<nat>, longer: nat)
      requires Searching(hashHead, cur, bestLen, n, tried) && bestLen <= longer && NoBetter(cur, longer)
      ensures Shape() && cur < 2 * wSize
      ensures var next := prev[Slot(cur, wSize)];
        if next <= SearchLimit() || n == 1 then
          NoneLonger(h, strstart, MayTry(hashHead), Min(longer, lookahead), Min(niceMatch, lookahead))
        else
          Searching(hashHead, next, longer, n - 1, tried + [cur])
    {
      hide Searchable, Candidate, MayTry, ToTry, Core, NoBetter, AllBeaten, NoneLonger, Slot;
      SearchRoom();
      CandidateNear(cur);
      NextCandidate(cur);
      NextToTry(cur, n - 1);
      AllBeatenNext(tried, bestLen, cur, longer);
      var next := prev[Slot(cur, wSize)];
      if next <= SearchLimit() || n == 1 {
        assert [cur] + ToTry(cur, n - 1) == [cur];
        Beaten(tried + [cur], longer);
      } else {
        CandidateNear(next);
        assert tried + ([cur] + ([next] + ToTry(next, n - 2))) == (tried + [cur]) + ([next] + ToTry(next, n - 2));
      }
    }

    // A string that beats all those before it.
    lemma FirstFound(hashHead: nat, cur: nat, bestLen: nat, n: nat, tried: seq<nat>, longer: nat)
      requires Searching(hashHead, cur, bestLen, n, tried) && bestLen < longer
      requires bestLen <= prevLength || bestLen < Min(niceMatch, lookahead)
      ensures Shape() && First(MayTry(hashHead), cur, longer)
    {
      hide Searchable, Candidate, MayTry, ToTry, AllBeaten, Core;
      SearchRoom();
      var all := MayTry(hashHead);
      assert all[|tried|] == cur && all[..|tried|] == tried;
      assert FirstAt(all, |tried|, bestLen, cur, longer);
    }

    lemma FirstCut(tried: seq<nat>, best: nat, bestLen: nat, len: nat)
      requires First(tried, best, bestLen) && len == Min(bestLen, lookahead) && prevLength < len
      ensures First(tried, best, len)
    {
      var k: nat, m: nat :| FirstAt(tried, k, m, best, bestLen);
      assert FirstAt(tried, k, m, best, len);
    }

    lemma SearchRoomAt(hashHead: nat, cur: nat, bestLen: nat, n: nat, tried: seq<nat>)
      requires Searching(hashHead, cur, bestLen, n, tried)
      ensures Searchable() && Candidate(cur) && 0 < cur < strstart && cur < 2 * wSize && 0 < n
    {
      hide Searchable, Candidate;
      CandidateNear(cur);
    }

    // The loop of longest_match. A search ends early only with a match as long as
    // it asks for.
    method SearchChain(hashHead: nat) returns (best: nat, bestLen: nat)
      requires Searchable() && Candidate(hashHead) && 1 <= prevLength <= MAX_MATCH
      ensures Shape() && Leading(best, bestLen)
      ensures NoneLonger(h, strstart, MayTry(hashHead), Min(bestLen, lookahead), Min(niceMatch, lookahead))
      ensures bestLen > prevLength ==> First(MayTry(hashHead), best, bestLen)
    {
      hide First, WindowRepeats, Core, HashParameters, HashSize, MayTry, NoBetter, NoneLonger,
        Searchable, Candidate, Slot, Searching;
      SearchRoom();
      var chainLength: nat, nice: nat := maxChainLength, niceMatch;
      bestLen := prevLength;
      var cur: nat := hashHead;
      best := hashHead;
      var limit := if strstart > MaxDist() then strstart - MaxDist() else 0;
      var scanEnd1, scanEnd := window[strstart + bestLen - 1], window[strstart + bestLen];
      if prevLength >= goodMatch {
        chainLength := chainLength / 4;
      }
      if nice > lookahead {
        nice := lookahead;
      }
      ghost var tried: seq<nat> := [];
      SearchStarts(hashHead, bestLen);
      while true
        invariant Searching(hashHead, cur, bestLen, chainLength, tried) && Leading(best, bestLen)
        invariant bestLen > prevLength ==> First(MayTry(hashHead), best, bestLen) && bestLen < nice
        invariant scanEnd1 == window[strstart + bestLen - 1] && scanEnd == window[strstart + bestLen]
        decreases cur
      {
        SearchRoomAt(hashHead, cur, bestLen, chainLength, tried);
        CandidateNear(cur);
        var l := Measure(cur, bestLen, scanEnd1, scanEnd);
        ghost var longer := if l > bestLen then l else bestLen;
        SearchGoesOn(hashHead, cur, bestLen, chainLength, tried, longer);
        if l > bestLen {
          FirstFound(hashHead, cur, bestLen, chainLength, tried, l);
          best := cur;
          bestLen := l;
          if l >= nice {
            NiceIsEnough(MayTry(hashHead), bestLen);
            break;
          }
          scanEnd1, scanEnd := window[strstart + bestLen - 1], window[strstart + bestLen];
        }
        tried := tried + [cur];
        NextBelow(cur);
        cur := prev[Slot(cur, wSize)];
        if cur <= limit {
          break;
        }
        chainLength := chainLength - 1;
        if chainLength == 0 {
          break;
        }
      }
    }

    // match_start becomes the place of the longest match and the result is its
    // length, of all the strings that may be tried.
    method LongestMatch(hashHead: nat) returns (len: nat)
      requires Searchable() && Candidate(hashHead)
      requires 1 <= prevLength <= MAX_MATCH && MatchIndexed()
      modifies this`matchStart, this`matchAt
      ensures len <= lookahead && len <= MAX_MATCH
      ensures Min(prevLength, lookahead) <= len
      ensures MatchIndexed()
      ensures len > prevLength ==>
        matchAt == h.base + matchStart && MatchFound(matchStart, len) && strstart - matchStart <= MaxDist()
      ensures NoneLonger(h, strstart, MayTry(hashHead), len, Min(niceMatch, lookahead))
      ensures len > prevLength ==> First(MayTry(hashHead), matchStart, len)
    {
      hide First, MatchFound, MatchIndexed, Core, HashParameters, HashSize, MayTry, NoneLonger, Searchable, Candidate,
        WindowRepeats;
      var best, bestLen := SearchChain(hashHead);
      len := Settle(best, bestLen);
      if len > prevLength {
        FirstCut(MayTry(hashHead), best, bestLen, len);
      }
    }

    lemma NextBelow(cur: nat)
      requires Searchable() && Candidate(cur)
      ensures cur < 2 * wSize && (prev[Slot(cur, wSize)] > SearchLimit() ==> prev[Slot(cur, wSize)] < cur)
    {
      hide Searchable, Candidate, Slot;
      SearchRoom();
      NextCandidate(cur);
    }

    lemma NiceIsEnough(tried: seq<nat>, bestLen: nat)
      requires Min(niceMatch, lookahead) <= bestLen
      ensures NoneLonger(h, strstart, tried, Min(bestLen, lookahead), Min(niceMatch, lookahead))
    {
    }

    // The best length, cut to the lookahead, and where it is if it is a new one.
    method Settle(best: nat, bestLen: nat) returns (len: nat)
      requires Searchable() && MatchIndexed() && prevLength <= bestLen <= MAX_MATCH
      requires bestLen > prevLength ==>
        best < strstart && strstart - best <= MaxDist() && WindowRepeats(best, bestLen)
      modifies this`matchStart, this`matchAt
      ensures len == Min(bestLen, lookahead) && MatchIndexed()
      ensures bestLen > prevLength ==> matchStart == best
      ensures len > prevLength ==>
        matchAt == h.base + matchStart && MatchFound(matchStart, len) && strstart - matchStart <= MaxDist()
    {
      hide WindowRepeats, MatchFound, MatchIndexed, Core, HashParameters, HashSize;
      CoreShape();
      len := if bestLen <= lookahead then bestLen else lookahead;
      if bestLen > prevLength {
        Clip(best, bestLen, len);
        SetMatch(best);
      }
    }

    // ----- symbols and blocks

    // The symbols tallied so far stand for the input up to position upto.
    ghost predicate Tallied(upto: int)
      requires Shape()
      reads this`sent, this`symBuf, this`h, this`blockStart, this`floor, this`mark
    {
      floor <= h.base && Explains(sent, symBuf, h.input, h.base + blockStart, upto, MaxDist(), mark, floor)
    }

    method TallyLit(c: byte) returns (flush: bool)
      requires |symBuf| < symEnd
      modifies this`symBuf
      ensures symBuf == old(symBuf) + [Literal(c)]
      ensures flush <==> |symBuf| == symEnd
    {
      symBuf := symBuf + [Literal(c)];
      flush := |symBuf| == symEnd;
    }

    // The distance is stored in 16 bits and the length less MIN_MATCH in 8.
    method TallyDist(distance: nat, length: nat) returns (flush: bool)
      requires |symBuf| < symEnd
      requires 1 <= distance < 0x1_0000 && length < 0x100
      modifies this`symBuf
      ensures symBuf == old(symBuf) + [Match(distance, length + MIN_MATCH)]
      ensures flush <==> |symBuf| == symEnd
    {
      symBuf := symBuf + [Match(distance % 0x1_0000, length % 0x100 + MIN_MATCH)];
      flush := |symBuf| == symEnd;
    }

    // No byte of output is lost between the coder and the caller.
    ghost predicate Accounted()
      reads this`produced, this`delivered, this`granted, this`pending, this`availOut
    {
      produced == delivered + pending && granted == delivered + availOut
    }

    // The stream goes on, or is over.
    ghost predicate Going()
      reads this`given, this`sent, this`produced, this`delivered, this`granted, this`pending, this`availOut
    {
      Open(given, sent) && Accounted()
    }

    ghost predicate Ended()
      reads this`given, this`sent, this`produced, this`delivered, this`granted, this`pending, this`availOut
    {
      Closed(given, sent) && Accounted()
    }

    method FlushPending()
      requires Going() || Ended()
      modifies this`pending, this`availOut, this`delivered
      ensures old(Going()) ==> Going()
      ensures old(Ended()) ==> Ended()
      ensures pending == old(pending) - Min(old(pending), old(availOut))
      ensures availOut == old(availOut) - Min(old(pending), old(availOut))
      ensures availOut <= old(availOut)
      ensures pending != 0 ==> availOut == 0
    {
      var len := pending;
      if len > availOut {
        len := availOut;
      }
      if len == 0 {
        return;
      }
      availOut := availOut - len;
      pending := pending - len;
      delivered := delivered + len;
    }

    // What the Huffman coder is given for a block: its symbols, and, in case a
    // stored block is shorter, the length of the same data and where the
    // window still holds it.
    ghost predicate BlockData(buf: Option<nat>, storedLen: int)
      reads this`sent, this`symBuf, this`blockStart, window
    {
      var before, after := Expand(sent), Expand(sent + symBuf);
      && before.Some? && after.Some?
      && storedLen == |after.value| - |before.value|
      && (buf.Some? <==> 0 <= blockStart)
      && (buf.Some? ==>
            && 0 <= storedLen && buf.value + storedLen <= window.Length
            && before.value + window[buf.value..buf.value + storedLen] == after.value)
    }

    // Stands for _tr_flush_block, which empties the symbol buffer and leaves
    // some number of bytes in the pending buffer.
    method TrFlushBlock(buf: Option<nat>, storedLen: int, last: bool)
      requires BlockData(buf, storedLen) && Going()
      modifies this`given, this`sent, this`symBuf, this`pending, this`produced
      ensures if last then Ended() else Going()
      ensures given == old(given) + [Block(old(symBuf), last)]
      ensures sent == old(sent + symBuf) && symBuf == []
    {
      var bytes :| 0 <= bytes;
      GiveNext(given, sent, Block(symBuf, last));
      given := given + [Block(symBuf, last)];
      sent := sent + symBuf;
      symBuf := [];
      pending := pending + bytes;
      produced := produced + bytes;
    }

    // The block from blockStart to strstart is where the coder is told.
    lemma DataOfBlock()
      requires Core() && strstart + lookahead == DataEnd() && Tallied(h.base + strstart) && blockStart <= strstart
      ensures BlockData(if blockStart >= 0 then Some(blockStart) else None, strstart - blockStart)
    {
      hide Tables, Encodable, Expand;
      if blockStart >= 0 {
        var upto := h.base + strstart;
        assert h.input[..upto] == h.input[..h.base + blockStart] + window[blockStart..strstart];
      }
    }

    method FlushBlockOnly(last: bool)
      requires Going()
      requires Core() && strstart + lookahead == DataEnd() && Tallied(h.base + strstart) && blockStart <= strstart
      modifies this`given, this`sent, this`symBuf, this`pending, this`availOut, this`blockStart,
        this`produced, this`delivered
      ensures if last then Ended() else Going()
      ensures Tallied(h.base + strstart) && blockStart == strstart
      ensures given == old(given) + [Block(old(symBuf), last)]
      ensures sent == old(sent + symBuf) && symBuf == []
      ensures pending != 0 ==> availOut == 0
    {
      hide Core, Explains, Going, Ended, BlockData;
      CoreShape();
      DataOfBlock();
      ExplainsFlush(sent, symBuf, h.input, h.base + blockStart, h.base + strstart, MaxDist(), mark, floor);
      TrFlushBlock(if blockStart >= 0 then Some(blockStart) else None, strstart - blockStart, last);
      blockStart := strstart;
      FlushPending();
    }

    // fill_window, seen by a match finder that has tallied up to `upto`.
    method Refill(ghost upto: int)
      requires Valid() && Fed() && Tallied(upto) && lookahead < MIN_LOOKAHEAD
      modifies window, head, prev, this`matchStart, this`strstart, this`blockStart, this`insert, this`h,
        this`nextIn, this`lookahead, this`insH, this`highWater, this`written
      ensures Valid() && Fed() && Tallied(upto)
      ensures old(h.input) <= h.input && old(h.base) <= h.base && old(h.inserted) <= h.inserted
      ensures h.base + strstart == old(h.base + strstart)
      ensures h.base + blockStart == old(h.base + blockStart)
      ensures strstart == old(strstart) || MaxDist() <= strstart
      ensures insert <= old(insert)
      ensures lookahead >= MIN_LOOKAHEAD || nextIn == []
      ensures old(lookahead) <= lookahead
      ensures strstart <= 2 * wSize - MIN_LOOKAHEAD
      ensures lookahead > 0 ==> strstart + MAX_MATCH < written
    {
      hide Cursor, Core, FedFrom, HashSize, HashParameters, Explains;
      CoreShape();
      ghost var input := h.input;
      FillWindow();
      ExplainsMoreInput(sent, symBuf, input, h.input, h.base + blockStart, upto, MaxDist(), mark, floor);
    }

    // Plenty of lookahead means plenty of initialised window.
    lemma RoomAhead()
      requires Valid() && lookahead >= MIN_LOOKAHEAD
      ensures strstart <= 2 * wSize - MIN_LOOKAHEAD && strstart + MAX_MATCH < written
    {
    }

    // FLUSH_BLOCK: true if the caller must return for want of output space.
    method FlushBlock(last: bool) returns (stop: bool)
      requires Going()
      requires Core() && strstart + lookahead == DataEnd() && Tallied(h.base + strstart) && blockStart <= strstart
      modifies this`given, this`sent, this`symBuf, this`pending, this`availOut, this`blockStart,
        this`produced, this`delivered
      ensures if last then Ended() else Going()
      ensures Tallied(h.base + strstart) && blockStart == strstart
      ensures given == old(given) + [Block(old(symBuf), last)]
      ensures sent == old(sent + symBuf) && symBuf == []
      ensures pending != 0 ==> availOut == 0
      ensures stop <==> availOut == 0
    {
      FlushBlockOnly(last);
      stop := availOut == 0;
    }

    // The blocks stand for exactly this input, and those since the history was
    // last forgotten for what was read since.
    ghost predicate StandsFor(input: seq<byte>)
      reads this`sent, this`mark, this`floor
    {
      && Expand(sent) == Some(input)
      && mark <= |sent| && floor <= |input| && Expand(sent[mark..]) == Some(input[floor..])
    }

    // The end of a call: every symbol of the input up to strstart is in a
    // block, so the blocks stand for exactly that input.
    ghost predicate AllSent()
      reads this`sent, this`symBuf, this`nextIn, this`fed, this`mark, this`floor
    {
      nextIn == [] && symBuf == [] && StandsFor(fed)
    }

    lemma AllSentIsAllRead()
      requires Fed() && nextIn == [] && symBuf == []
      ensures AllSent() <==> StandsFor(h.input)
    {
      assert h.input + nextIn == h.input;
    }

    lemma AllSentAtEnd()
      requires Valid() && Fed() && Tallied(h.base + strstart)
      requires lookahead == 0 && nextIn == [] && symBuf == []
      ensures AllSent()
    {
      hide Tables, WindowHolds, Expand, Encodable;
      assert sent + symBuf == sent;
      assert h.input[..h.base + strstart] == h.input == fed;
      assert h.input[floor..h.base + strstart] == fed[floor..];
    }

    lemma AllRead()
      requires Fed() && nextIn == []
      ensures h.input == fed
    {
    }

    lemma Progress()
      requires Valid() && Fed()
      ensures h.base + strstart + lookahead == |h.input| <= |fed|
    {
    }

    // At the end of the input the last strings are too short to insert; they
    // are left to the next call.
    method LeaveInsert()
      requires Valid() && lookahead == 0
      modifies this`insert
      ensures Valid() && insert == Min(strstart, MIN_MATCH - 1)
    {
      hide WindowHolds, Coherent, HashParameters;
      insert := if strstart < MIN_MATCH - 1 then strstart else MIN_MATCH - 1;
    }

    // The end that deflate_fast and deflate_slow share, once the input has run
    // out: close the last block.
    method EndOfInput(flush: Flush) returns (result: BlockState)
      requires Going()
      requires Valid() && Fed() && Tallied(h.base + strstart) && blockStart <= strstart
      requires lookahead == 0 && nextIn == []
      modifies this`insert, this`given, this`sent, this`symBuf, this`pending, this`availOut, this`blockStart,
        this`produced, this`delivered
      ensures if flush == Finish then Ended() else Going()
      ensures Valid() && Fed() && Tallied(h.base + strstart) && blockStart <= strstart
      ensures sent == old(sent + symBuf) && symBuf == []
      ensures given == old(given) +
        if flush == Finish then [Block(old(symBuf), true)]
        else if old(symBuf) != [] then [Block(old(symBuf), false)] else []
      ensures insert == Min(strstart, MIN_MATCH - 1)
      ensures result == NeedMore ==> flush != Finish && availOut == 0
      ensures result == FinishStarted ==> flush == Finish && availOut == 0
      ensures result == FinishDone ==> flush == Finish && pending == 0
      ensures result == BlockDone ==> flush != Finish
      ensures AllSent()
    {
      hide Core, Cursor, FedFrom, Explains, AllSent, HashParameters, Going, Ended;
      CoreShape();
      LeaveInsert();
      CursorEnd();
      ghost var blocks := given;
      if flush == Finish {
        var stop := FlushBlock(true);
        result := if stop then FinishStarted else FinishDone;
      } else if symBuf != [] {
        var stop := FlushBlock(false);
        result := if stop then NeedMore else BlockDone;
      } else {
        result := BlockDone;
        assert given == blocks + [] && sent == sent + symBuf;
      }
      AllSentAtEnd();
    }

    // strstart has been put into the dictionary, if enough bytes follow it.
    ghost predicate Entered()
      reads this`h, this`written, this`highWater, window, head, prev
      reads this`strstart, this`lookahead, this`insert, this`insH
    {
      && Core() && strstart + lookahead == DataEnd()
      && insert <= strstart
      && (insert > 0 ==> lookahead + insert < MIN_MATCH)
      && (lookahead < MIN_MATCH ==> h.end <= h.base + strstart - insert)
      && (lookahead >= MIN_MATCH ==>
            h.end == h.base + strstart + 1 && RolledAt(strstart + 1) && h.base + strstart in h.inserted)
    }

    lemma EnteredShape()
      requires Entered()
      ensures Core() && Shape() && strstart + lookahead == DataEnd()
      ensures lookahead >= MIN_MATCH ==> insert == 0
    {
    }

    // How both match finders start a round: enter strstart into the dictionary
    // and report the newest string of its chain, NIL if it is too far away.
    method Enter() returns (hashHead: nat)
      requires Valid() && Followed() && strstart + MAX_MATCH < written
      modifies this`insH, this`h, head, prev
      ensures Entered() && MatchIndexed() && Followed()
      ensures Core() && strstart + lookahead == DataEnd() && (MIN_MATCH <= lookahead ==> Searchable())
      ensures h.input == old(h.input) && h.base == old(h.base)
      ensures h.inserted == old(h.inserted) + if MIN_MATCH <= lookahead then {h.base + strstart} else {}
      ensures MIN_MATCH <= lookahead ==>
        strstart < 2 * wSize && hashHead == prev[Slot(strstart, wSize)] && h.base + strstart in h.inserted
      ensures lookahead < MIN_MATCH ==> hashHead == 0
      ensures hashHead != 0 && strstart - hashHead <= MaxDist() ==> MIN_MATCH <= lookahead && Candidate(hashHead)
    {
      hide WindowHolds, Tables, OnChain, ChainAt, HashParameters, Follows, Slot;
      ghost var before := h;
      hashHead := 0;
      if lookahead >= MIN_MATCH {
        hashHead := InsertString(strstart);
      }
      FollowsOn(turns, before, strstart, floor, MaxDist(), h, strstart);
    }

    // The turn that is being taken at strstart.
    ghost function TurnHere(len: nat, found: nat): Turn
      reads this`h, this`strstart, this`lookahead, this`floor, this`matchStart, head, prev
    {
      Turn(h, head[..], prev[..], strstart, lookahead, floor, len, found, (strstart - matchStart) % WORD)
    }

    lemma SnapshotHere(len: nat, found: nat)
      requires Entered() && 1 <= lookahead && Followed() && strstart + MAX_MATCH < written
      ensures Snapshot(TurnHere(len, found), TheSettings())
    {
      hide WindowHolds, Coherent, Chain, HashParameters, HashSize;
    }

    // ----- initialisation

    method ClearHash()
      modifies head
      ensures forall i | 0 <= i < head.Length :: head[i] == 0
    {
      var i := 0;
      while i < head.Length
        invariant 0 <= i <= head.Length
        invariant forall j | 0 <= j < i :: head[j] == 0
      {
        head[i] := 0;
        i := i + 1;
      }
    }

    static lemma WindowSize(wBits: nat)
      requires 9 <= wBits <= 15
      ensures [0x200, 0x400, 0x800, 0x1000, 0x2000, 0x4000, 0x8000][wBits - 9] == Pow2(wBits)
    {
      SmallPowers();
      PowerNext(8);
      PowerNext(9);
      PowerNext(10);
      PowerNext(11);
      PowerNext(12);
      PowerNext(13);
      PowerNext(14);
    }

    lemma NothingYet()
      requires Shape() && h == History([], 0, {}, 0) && forall c | 0 <= c < head.Length :: head[c] == 0
      requires strstart == 0 && lookahead == 0 && insert == 0 && blockStart == 0 && highWater == 0 && written == 0
      requires matchStart == 0 && matchAt == 0 && sent == [] && symBuf == [] && mark == 0 && floor == 0 && turns == []
      ensures Valid() && Tallied(0) && Followed()
    {
      hide Chain, Coherent, Rolled, HashSize, HashParameters;
      ClearCoherent(h, 0, head[..], prev[..], hashShift, hashMask);
    }

    // deflateInit2_ and lm_init.
    constructor (
      wBits: nat, shift: bv6, mask: bv32, maxChain: nat, maxLazy: nat, good: nat, nice: nat,
      filtered: bool, lazy: bool, symEnd: nat)
      requires 9 <= wBits <= 15 && HashParameters(shift, mask)
      requires 4 <= maxChain && nice <= MAX_MATCH && 1 < symEnd
      ensures Valid() && Fed() && Tallied(h.base + strstart) && blockStart <= strstart
      ensures fresh(window) && fresh(head) && fresh(prev)
      ensures fed == [] && symBuf == [] && !matchAvailable && matchLength == prevLength == MIN_MATCH - 1
      ensures this.lazy == lazy && !finished && |symBuf| < this.symEnd
      ensures wSize == Pow2(wBits) && hashShift == shift && hashMask == mask && this.symEnd == symEnd
      ensures TheSettings() == Settings(shift, mask, Pow2(wBits) - 262, maxChain, good, maxLazy, nice, filtered)
      ensures Going() && given == [] && sent == [] && turns == [] && floor == 0 && h.base + strstart == 0
      ensures Followed() && lastFlush == -2
    {
      hide Core, Cursor, Explains, Follows, Rolled, HashSize, HashParameters;
      WindowSize(wBits);
      var size := [0x200, 0x400, 0x800, 0x1000, 0x2000, 0x4000, 0x8000][wBits - 9];
      wSize := size;
      hashShift, hashMask := shift, mask;
      maxChainLength, maxLazyMatch, goodMatch, niceMatch := maxChain, maxLazy, good, nice;
      this.filtered, this.lazy, this.symEnd := filtered, lazy, symEnd;
      window := new byte[2 * size];
      prev := new Pos[size];
      head := new Pos[HashSize(mask)];
      strstart, lookahead, insert, insH, blockStart, highWater := 0, 0, 0, 0, 0, 0;
      matchStart, matchLength, prevMatch, prevLength, matchAvailable := 0, MIN_MATCH - 1, 0, MIN_MATCH - 1, false;
      finished, lastFlush := false, -2;
      nextIn, availOut, pending, symBuf := [], 0, 0, [];
      fed, h, sent, matchAt, written := [], History([], 0, {}, 0), [], 0, 0;
      given, floor, mark, turns := [], 0, 0, [];
      produced, delivered, granted := 0, 0, 0;
      new;
      ClearHash();
      NothingYet();
    }

    // CLEAR_HASH, and starting again at the bottom of the window.
    method Restart()
      requires Valid() && Fed() && lookahead == 0
      modifies head, this`strstart, this`blockStart, this`insert, this`h, this`matchAt
      ensures Valid() && Fed() && lookahead == 0 && strstart == 0 && blockStart == 0
      ensures h == Forgotten(old(h), |old(h.input)|)
    {
      hide Chain, Coherent, Rolled, HashSize, HashParameters;
      ClearHash();
      ClearCoherent(h, |h.input|, head[..], prev[..], hashShift, hashMask);
      strstart := 0;
      blockStart := 0;
      insert := 0;
      h := Forgotten(h, |h.input|);
      matchAt := h.base + matchStart;
    }

    // What deflate does after a full flush: forget the history. No match from
    // here on reaches back over this point.
    method ForgetHistory()
      requires Valid() && Fed() && Tallied(h.base + strstart) && lookahead == 0 && symBuf == [] && Followed()
      modifies head, this`strstart, this`blockStart, this`insert, this`h, this`matchAt, this`floor, this`mark
      ensures Valid() && Fed() && Tallied(h.base + strstart) && blockStart <= strstart && Followed()
      ensures lookahead == 0 && h.input == old(h.input) && h.base + strstart == old(h.base + strstart)
      ensures floor == |h.input| && mark == |sent|
    {
      hide Core, Cursor, Fed, EnteredBefore, FromInput, AllAhead, Explains;
      CoreShape();
      CursorEnd();
      ExplainsAnew(sent, h.input, h.base + blockStart, h.base + strstart, MaxDist(), mark, floor);
      NoneEntered();
      Restart();
      floor, mark := |h.input|, |sent|;
    }

    // Every turn was taken before the end of the input.
    lemma NoneEntered()
      requires Shape() && Followed()
      ensures EnteredBefore(turns, {}, |h.input|)
    {
    }
  }
}
