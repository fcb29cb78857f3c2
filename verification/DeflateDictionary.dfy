// The string dictionary of deflate: head[] holds the newest window index of
// each hash chain, prev[] links every index to the next older one, in a table
// of w_size slots that wraps round. Both hold window indices, which a slide of
// the window moves down by w_size; 0 (NIL) ends a chain.
//
// The invariant is stated on absolute input positions, which no slide moves.
module DeflateDictionary {
  import opened Basics
  import opened DeflateHash

  // A window index as stored in the tables, 16 bits wide.
  type Pos = x: int | 0 <= x < 0x1_0000

  // What the tables stand for: the input read so far, the absolute position of
  // window[0], the positions inserted, and one past the last of them.
  datatype History = History(input: seq<byte>, base: nat, inserted: set<nat>, end: nat)

  // str & w_mask, for an index below 2 * w_size.
  function Slot(index: nat, wSize: nat): (slot: nat)
    requires index < 2 * wSize
    ensures slot < wSize
  {
    if index < wSize then index else index - wSize
  }

  ghost function ChainAt(h: History, p: nat, shift: bv6, mask: bv32): nat
    requires HashParameters(shift, mask) && p + 2 < |h.input|
  {
    Chain(h.input[p], h.input[p + 1], h.input[p + 2], shift, mask)
  }

  // Window index q is an inserted position on chain c.
  ghost predicate OnChain(h: History, q: nat, c: nat, shift: bv6, mask: bv32)
    requires HashParameters(shift, mask)
  {
    h.base + q in h.inserted && h.base + q + 2 < |h.input| && ChainAt(h, h.base + q, shift, mask) == c
  }

  // The link stored for window index q leads to an older index of its chain.
  ghost predicate LinkedBack(h: History, prev: seq<Pos>, q: nat, shift: bv6, mask: bv32)
    requires HashParameters(shift, mask)
    requires h.base + q + 2 < |h.input| && q < 2 * |prev|
  {
    var older := prev[Slot(q, |prev|)];
    older != 0 ==> older < q && OnChain(h, older, ChainAt(h, h.base + q, shift, mask), shift, mask)
  }

  // A position whose slot in prev[] has not been taken by a newer one.
  ghost predicate Live(h: History, q: nat, wSize: nat) {
    0 < q && h.base + q in h.inserted && h.end <= h.base + q + wSize
  }

  // The head of its chain is at or above an inserted position p, so that the
  // chain has not lost it. Index 0 stands for none.
  ghost predicate HeadReaches(h: History, head: seq<Pos>, p: nat, shift: bv6, mask: bv32)
    requires HashParameters(shift, mask)
    requires p + 2 < |h.input|
  {
    var c := ChainAt(h, p, shift, mask);
    c < |head| && p - h.base <= head[c]
  }

  // The link of window index q leads to the newest older position of its chain.
  ghost predicate LinkReaches(h: History, prev: seq<Pos>, q: nat, shift: bv6, mask: bv32)
    requires HashParameters(shift, mask)
    requires h.base + q + 2 < |h.input| && q < 2 * |prev|
  {
    forall p | p in h.inserted && h.base < p < h.base + q
      && ChainAt(h, p, shift, mask) == ChainAt(h, h.base + q, shift, mask) ::
      p - h.base <= prev[Slot(q, |prev|)]
  }

  // Every inserted string has its three bytes, and the window its room.
  ghost predicate Inside(h: History, wSize: nat) {
    && |h.input| <= h.base + 2 * wSize
    && forall p | p in h.inserted :: p + 2 < |h.input| && p < h.end
  }

  // What is in the tables is right.
  ghost predicate Linked(h: History, head: seq<Pos>, prev: seq<Pos>, shift: bv6, mask: bv32) {
    && HashParameters(shift, mask)
    && |head| == HashSize(mask)
    && Inside(h, |prev|)
    && (forall c | 0 <= c < |head| && head[c] != 0 :: OnChain(h, head[c], c, shift, mask))
    && (forall q: nat | Live(h, q, |prev|) :: LinkedBack(h, prev, q, shift, mask))
  }

  // And nothing that was inserted is missing.
  ghost predicate HeadsReach(h: History, head: seq<Pos>, wSize: nat, shift: bv6, mask: bv32)
    requires HashParameters(shift, mask) && Inside(h, wSize)
  {
    forall p | p in h.inserted && h.base < p :: HeadReaches(h, head, p, shift, mask)
  }

  ghost predicate LinksReach(h: History, prev: seq<Pos>, shift: bv6, mask: bv32)
    requires HashParameters(shift, mask) && Inside(h, |prev|)
  {
    forall q: nat | Live(h, q, |prev|) :: LinkReaches(h, prev, q, shift, mask)
  }

  ghost predicate Coherent(h: History, head: seq<Pos>, prev: seq<Pos>, shift: bv6, mask: bv32) {
    && Linked(h, head, prev, shift, mask)
    && HeadsReach(h, head, |prev|, shift, mask)
    && LinksReach(h, prev, shift, mask)
  }

  lemma LinkedInside(h: History, head: seq<Pos>, prev: seq<Pos>, shift: bv6, mask: bv32)
    requires Linked(h, head, prev, shift, mask)
    ensures HashParameters(shift, mask) && |head| == HashSize(mask) && Inside(h, |prev|)
  {
  }

  // ----- INSERT_STRING

  ghost function Inserted(h: History, str: nat): History {
    h.(inserted := h.inserted + {h.base + str}, end := h.base + str + 1)
  }

  // The tables after INSERT_STRING, on chain c.
  lemma InsertLinked(h: History, head: seq<Pos>, prev: seq<Pos>, str: Pos, c: nat, shift: bv6, mask: bv32)
    requires Linked(h, head, prev, shift, mask)
    requires h.end <= h.base + str && h.base + str + 2 < |h.input| && str < 2 * |prev|
    requires c == ChainAt(h, h.base + str, shift, mask) < |head|
    ensures Linked(Inserted(h, str), head[c := str], prev[Slot(str, |prev|) := head[c]], shift, mask)
  {
    hide Chain, HashSize, HashParameters;
    var h', prev' := Inserted(h, str), prev[Slot(str, |prev|) := head[c]];
    forall q: nat | Live(h', q, |prev'|) ensures LinkedBack(h', prev', q, shift, mask) {
      if q != str {
        assert Live(h, q, |prev|);
        assert LinkedBack(h, prev, q, shift, mask);
      }
    }
  }

  lemma InsertInside(h: History, str: Pos, wSize: nat)
    requires Inside(h, wSize) && h.end <= h.base + str && h.base + str + 2 < |h.input|
    ensures Inside(Inserted(h, str), wSize)
  {
  }

  lemma InsertHeads(h: History, head: seq<Pos>, str: Pos, c: nat, wSize: nat, shift: bv6, mask: bv32)
    requires HashParameters(shift, mask) && Inside(h, wSize) && HeadsReach(h, head, wSize, shift, mask)
    requires h.end <= h.base + str && h.base + str + 2 < |h.input|
    requires c == ChainAt(h, h.base + str, shift, mask) < |head|
    ensures Inside(Inserted(h, str), wSize) && HeadsReach(Inserted(h, str), head[c := str], wSize, shift, mask)
  {
    hide Chain, HashParameters;
    var h', head' := Inserted(h, str), head[c := str];
    InsertInside(h, str, wSize);
    forall p | p in h'.inserted && h'.base < p ensures HeadReaches(h', head', p, shift, mask) {
      if p != h.base + str {
        assert HeadReaches(h, head, p, shift, mask);
      }
    }
  }

  lemma InsertLinks(h: History, head: seq<Pos>, prev: seq<Pos>, str: Pos, c: nat, shift: bv6, mask: bv32)
    requires HashParameters(shift, mask) && Inside(h, |prev|) && HeadsReach(h, head, |prev|, shift, mask)
    requires LinksReach(h, prev, shift, mask)
    requires h.end <= h.base + str && h.base + str + 2 < |h.input| && str < 2 * |prev|
    requires c == ChainAt(h, h.base + str, shift, mask) < |head|
    ensures Inside(Inserted(h, str), |prev|)
    ensures LinksReach(Inserted(h, str), prev[Slot(str, |prev|) := head[c]], shift, mask)
  {
    hide Chain, HashParameters;
    var h', prev' := Inserted(h, str), prev[Slot(str, |prev|) := head[c]];
    InsertInside(h, str, |prev|);
    forall q: nat | Live(h', q, |prev'|) ensures LinkReaches(h', prev', q, shift, mask) {
      if q == str {
        forall p | p in h.inserted && h.base < p && ChainAt(h, p, shift, mask) == c ensures p - h.base <= head[c] {
          assert HeadReaches(h, head, p, shift, mask);
        }
      } else {
        assert Live(h, q, |prev|);
        assert LinkReaches(h, prev, q, shift, mask);
      }
    }
  }

  // Inserting a string newer than all others keeps the dictionary coherent.
  lemma InsertCoherent(h: History, head: seq<Pos>, prev: seq<Pos>, str: Pos, shift: bv6, mask: bv32)
    requires Coherent(h, head, prev, shift, mask)
    requires h.end <= h.base + str && h.base + str + 2 < |h.input| && str < 2 * |prev|
    ensures ChainAt(h, h.base + str, shift, mask) < |head|
    ensures var c := ChainAt(h, h.base + str, shift, mask);
            Coherent(Inserted(h, str), head[c := str], prev[Slot(str, |prev|) := head[c]], shift, mask)
  {
    hide Chain, HashSize, HashParameters, Linked, HeadsReach, LinksReach, Inside;
    LinkedInside(h, head, prev, shift, mask);
    ChainBound(h.input[h.base + str], h.input[h.base + str + 1], h.input[h.base + str + 2], shift, mask);
    var c := ChainAt(h, h.base + str, shift, mask);
    InsertLinked(h, head, prev, str, c, shift, mask);
    InsertHeads(h, head, str, c, |prev|, shift, mask);
    InsertLinks(h, head, prev, str, c, shift, mask);
  }

  // ----- slide_hash

  function SlideTable(table: seq<Pos>, wSize: nat): (r: seq<Pos>)
    ensures |r| == |table|
    ensures forall i | 0 <= i < |r| :: r[i] == if table[i] >= wSize then table[i] - wSize else 0
  {
    seq(|table|, i requires 0 <= i < |table| => if table[i] >= wSize then (table[i] - wSize) as Pos else 0)
  }

  ghost function Slid(h: History, wSize: nat): History {
    h.(base := h.base + wSize)
  }

  lemma SlideLinked(h: History, head: seq<Pos>, prev: seq<Pos>, shift: bv6, mask: bv32)
    requires Linked(h, head, prev, shift, mask)
    ensures Linked(Slid(h, |prev|), SlideTable(head, |prev|), SlideTable(prev, |prev|), shift, mask)
  {
    hide Chain, HashSize, HashParameters;
    var w := |prev|;
    var h', head', prev' := Slid(h, w), SlideTable(head, w), SlideTable(prev, w);
    forall c | 0 <= c < |head'| && head'[c] != 0 ensures OnChain(h', head'[c], c, shift, mask) {
      assert OnChain(h, head[c], c, shift, mask);
    }
    forall q: nat | Live(h', q, w)
      ensures q + w < 2 * w && LinkedBack(h', prev', q, shift, mask)
    {
      assert h.base + (q + w) in h.inserted;
      assert Live(h, q + w, w);
      assert LinkedBack(h, prev, q + w, shift, mask);
    }
  }

  lemma SlideHeads(h: History, head: seq<Pos>, wSize: nat, shift: bv6, mask: bv32)
    requires HashParameters(shift, mask) && Inside(h, wSize) && HeadsReach(h, head, wSize, shift, mask)
    ensures Inside(Slid(h, wSize), wSize)
    ensures HeadsReach(Slid(h, wSize), SlideTable(head, wSize), wSize, shift, mask)
  {
    hide Chain, HashParameters;
    var h' := Slid(h, wSize);
    forall p | p in h'.inserted && h'.base < p ensures HeadReaches(h', SlideTable(head, wSize), p, shift, mask) {
      assert HeadReaches(h, head, p, shift, mask);
    }
  }

  lemma SlideLinks(h: History, prev: seq<Pos>, shift: bv6, mask: bv32)
    requires HashParameters(shift, mask) && Inside(h, |prev|) && LinksReach(h, prev, shift, mask)
    ensures Inside(Slid(h, |prev|), |prev|)
    ensures LinksReach(Slid(h, |prev|), SlideTable(prev, |prev|), shift, mask)
  {
    hide Chain, HashParameters;
    var w := |prev|;
    var h', prev' := Slid(h, w), SlideTable(prev, w);
    forall q: nat | Live(h', q, w) ensures q < w && LinkReaches(h', prev', q, shift, mask) {
      assert h.base + (q + w) in h.inserted;
      assert Live(h, q + w, w);
      assert LinkReaches(h, prev, q + w, shift, mask);
    }
  }

  // Sliding both tables along with the window keeps every chain, cut where it
  // leaves the window.
  lemma SlideCoherent(h: History, head: seq<Pos>, prev: seq<Pos>, shift: bv6, mask: bv32)
    requires Coherent(h, head, prev, shift, mask)
    ensures Coherent(Slid(h, |prev|), SlideTable(head, |prev|), SlideTable(prev, |prev|), shift, mask)
  {
    hide Chain, HashSize, HashParameters, Linked, HeadsReach, LinksReach, Inside;
    LinkedInside(h, head, prev, shift, mask);
    SlideLinked(h, head, prev, shift, mask);
    SlideHeads(h, head, |prev|, shift, mask);
    SlideLinks(h, prev, shift, mask);
  }

  // ----- more input

  ghost function Extended(h: History, more: seq<byte>): History {
    h.(input := h.input + more)
  }

  lemma ExtendLinked(h: History, more: seq<byte>, head: seq<Pos>, prev: seq<Pos>, shift: bv6, mask: bv32)
    requires Linked(h, head, prev, shift, mask)
    requires |h.input| + |more| <= h.base + 2 * |prev|
    ensures Linked(Extended(h, more), head, prev, shift, mask)
  {
    hide Chain, HashSize, HashParameters;
    var h' := Extended(h, more);
    forall c | 0 <= c < |head| && head[c] != 0 ensures OnChain(h', head[c], c, shift, mask) {
      assert OnChain(h, head[c], c, shift, mask);
    }
    forall q: nat | Live(h', q, |prev|) ensures LinkedBack(h', prev, q, shift, mask) {
      assert Live(h, q, |prev|);
      assert LinkedBack(h, prev, q, shift, mask);
    }
  }

  lemma ExtendChain(h: History, more: seq<byte>, p: nat, shift: bv6, mask: bv32)
    requires HashParameters(shift, mask) && p + 2 < |h.input|
    ensures ChainAt(Extended(h, more), p, shift, mask) == ChainAt(h, p, shift, mask)
  {
    hide Chain;
  }

  lemma ExtendHeads(h: History, more: seq<byte>, head: seq<Pos>, wSize: nat, shift: bv6, mask: bv32)
    requires HashParameters(shift, mask) && Inside(h, wSize) && HeadsReach(h, head, wSize, shift, mask)
    requires |h.input| + |more| <= h.base + 2 * wSize
    ensures Inside(Extended(h, more), wSize) && HeadsReach(Extended(h, more), head, wSize, shift, mask)
  {
    hide ChainAt, HashParameters;
    forall p | p in h.inserted && h.base < p ensures HeadReaches(Extended(h, more), head, p, shift, mask) {
      assert HeadReaches(h, head, p, shift, mask);
      ExtendChain(h, more, p, shift, mask);
    }
  }

  lemma ExtendLinks(h: History, more: seq<byte>, prev: seq<Pos>, shift: bv6, mask: bv32)
    requires HashParameters(shift, mask) && Inside(h, |prev|) && LinksReach(h, prev, shift, mask)
    requires |h.input| + |more| <= h.base + 2 * |prev|
    ensures Inside(Extended(h, more), |prev|) && LinksReach(Extended(h, more), prev, shift, mask)
  {
    hide ChainAt, HashParameters;
    var h' := Extended(h, more);
    forall q: nat | Live(h', q, |prev|) ensures LinkReaches(h', prev, q, shift, mask) {
      assert Live(h, q, |prev|);
      assert LinkReaches(h, prev, q, shift, mask);
      ExtendChain(h, more, h.base + q, shift, mask);
      forall p | p in h.inserted ensures ChainAt(h', p, shift, mask) == ChainAt(h, p, shift, mask) {
        ExtendChain(h, more, p, shift, mask);
      }
    }
  }

  lemma ExtendCoherent(h: History, more: seq<byte>, head: seq<Pos>, prev: seq<Pos>, shift: bv6, mask: bv32)
    requires Coherent(h, head, prev, shift, mask)
    requires |h.input| + |more| <= h.base + 2 * |prev|
    ensures Coherent(Extended(h, more), head, prev, shift, mask)
  {
    hide Chain, HashSize, HashParameters, Linked, HeadsReach, LinksReach, Inside;
    LinkedInside(h, head, prev, shift, mask);
    ExtendLinked(h, more, head, prev, shift, mask);
    ExtendHeads(h, more, head, |prev|, shift, mask);
    ExtendLinks(h, more, prev, shift, mask);
  }

  // ----- CLEAR_HASH

  ghost function Forgotten(h: History, base: nat): History {
    h.(base := base, inserted := {}, end := 0)
  }

  lemma ClearCoherent(h: History, base: nat, head: seq<Pos>, prev: seq<Pos>, shift: bv6, mask: bv32)
    requires HashParameters(shift, mask) && |head| == HashSize(mask) && |h.input| <= base + 2 * |prev|
    requires forall c | 0 <= c < |head| :: head[c] == 0
    ensures Coherent(Forgotten(h, base), head, prev, shift, mask)
  {
  }

  // ----- walking a chain

  // A link followed from a live position p leads to an older position whose
  // three bytes hash alike.
  lemma FollowLink(h: History, head: seq<Pos>, prev: seq<Pos>, q: nat, shift: bv6, mask: bv32)
    requires Coherent(h, head, prev, shift, mask) && Live(h, q, |prev|)
    ensures h.base + q + 2 < |h.input| && q < 2 * |prev|
    ensures var older := prev[Slot(q, |prev|)];
            older != 0 ==>
              older < q && OnChain(h, older, ChainAt(h, h.base + q, shift, mask), shift, mask)
  {
    hide HeadsReach, LinksReach, Chain, HashParameters, HashSize;
    assert LinkedBack(h, prev, q, shift, mask);
  }
}
