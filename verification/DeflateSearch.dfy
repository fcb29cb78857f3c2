// What a search for a match looks at, and what it may claim: the strings it
// meets along a hash chain, and that none of them repeats for longer. With no
// limit on the number of strings, it meets every one that can be reached.
module DeflateSearch {
  import opened Basics
  import opened Lz77
  import opened DeflateHash
  import opened DeflateDictionary

  // The strings from cur on, at most n of them, as long as they lie above the
  // limit.
  ghost function Visited(prev: seq<Pos>, cur: nat, limit: nat, n: nat): seq<nat>
    decreases n
  {
    if n == 0 || cur <= limit || 2 * |prev| <= cur then []
    else [cur] + Visited(prev, prev[Slot(cur, |prev|)], limit, n - 1)
  }

  // The same for the first string of a chain, which may lie at the limit.
  ghost function Tried(prev: seq<Pos>, first: nat, limit: nat, n: nat): seq<nat> {
    if n == 0 || first == 0 || first < limit || 2 * |prev| <= first then []
    else [first] + Visited(prev, prev[Slot(first, |prev|)], limit, n - 1)
  }

  // The r bytes at window index cur occur again at str.
  ghost predicate RepeatsFrom(h: History, cur: nat, str: nat, r: nat) {
    Repeats(h.input, h.base + cur, h.base + str, r)
  }

  // None of the strings tried repeats for more than len bytes, within the input
  // there is; or len is all that a search asks for.
  ghost predicate NoneLonger(h: History, str: nat, tried: seq<nat>, len: nat, enough: nat) {
    || enough <= len
    || forall i, r: nat | 0 <= i < |tried| && r <= 258 && RepeatsFrom(h, tried[i], str, r) :: r <= len
  }

  // ----- every string in reach is tried

  // The newest inserted string of a chain below q that is not NIL is where the
  // link of q leads, at the least.
  lemma {:induction false} AllVisited(
    h: History, head: seq<Pos>, prev: seq<Pos>, cur: nat, limit: nat, n: nat, p: nat, shift: bv6, mask: bv32)
    requires Coherent(h, head, prev, shift, mask) && p in h.inserted && p + 2 < |h.input|
    requires h.base + limit < p <= h.base + cur && h.end <= h.base + limit + |prev| + 1
    requires OnChain(h, cur, ChainAt(h, p, shift, mask), shift, mask)
    requires cur <= n
    ensures p - h.base in Visited(prev, cur, limit, n)
    decreases n
  {
    hide HeadsReach, Chain, HashParameters, HashSize;
    assert Live(h, cur, |prev|);
    FollowLink(h, head, prev, cur, shift, mask);
    if p != h.base + cur {
      assert LinkReaches(h, prev, cur, shift, mask);
      AllVisited(h, head, prev, prev[Slot(cur, |prev|)], limit, n - 1, p, shift, mask);
    }
  }

  lemma AllTried(
    h: History, head: seq<Pos>, prev: seq<Pos>, str: nat, limit: nat, n: nat, p: nat, shift: bv6, mask: bv32)
    requires Coherent(h, head, prev, shift, mask) && Live(h, str, |prev|) && h.end == h.base + str + 1
    requires p in h.inserted && p + 2 < |h.input| && h.base + limit < p < h.base + str && str <= limit + |prev|
    requires h.base + str + 2 < |h.input| && str < 2 * |prev|
    requires ChainAt(h, p, shift, mask) == ChainAt(h, h.base + str, shift, mask) && str <= n
    ensures p - h.base <= prev[Slot(str, |prev|)] < str
    ensures p - h.base in Tried(prev, prev[Slot(str, |prev|)], limit, n)
  {
    hide HeadsReach, Chain, HashParameters, HashSize, Visited;
    var first := prev[Slot(str, |prev|)];
    FollowLink(h, head, prev, str, shift, mask);
    assert LinkReaches(h, prev, str, shift, mask);
    AllVisited(h, head, prev, first, limit, n, p, shift, mask);
    VisitedIsTried(prev, first, limit, n);
  }

  lemma VisitedIsTried(prev: seq<Pos>, first: nat, limit: nat, n: nat)
    requires limit < first
    ensures Tried(prev, first, limit, n) == Visited(prev, first, limit, n)
  {
  }

  // Three equal bytes are on one chain.
  lemma SameChain(h: History, p: nat, q: nat, r: nat, shift: bv6, mask: bv32)
    requires HashParameters(shift, mask) && Repeats(h.input, p, q, r) && 3 <= r
    ensures p + 2 < |h.input| && q + 2 < |h.input| && ChainAt(h, p, shift, mask) == ChainAt(h, q, shift, mask)
  {
    hide Chain, HashParameters;
    RepeatsAt(h.input, p, q, r, 0);
    RepeatsAt(h.input, p, q, r, 1);
    RepeatsAt(h.input, p, q, r, 2);
  }

  lemma RepeatsAt(data: seq<byte>, p: nat, q: nat, r: nat, k: nat)
    requires Repeats(data, p, q, r) && k < r
    ensures data[p + k] == data[q + k]
  {
    assert data[p..p + r][k] == data[q..q + r][k];
  }

  // What a search that may go on for as long as there are strings has found:
  // no inserted string in reach repeats for longer.
  lemma LongestInReach(
    h: History, head: seq<Pos>, prev: seq<Pos>, str: nat, limit: nat, n: nat, len: nat, enough: nat, p: nat, r: nat,
    shift: bv6, mask: bv32)
    requires Coherent(h, head, prev, shift, mask) && Live(h, str, |prev|) && h.end == h.base + str + 1
    requires str < 2 * |prev| && str <= limit + |prev| && str <= n
    requires NoneLonger(h, str, Tried(prev, prev[Slot(str, |prev|)], limit, n), len, enough)
    requires p in h.inserted && h.base + limit < p && Repeats(h.input, p, h.base + str, r) && 3 <= r <= 258
    ensures p - h.base <= prev[Slot(str, |prev|)] < str
    ensures r <= len || enough <= len
  {
    hide Linked, HeadsReach, LinksReach, Chain, HashParameters, HashSize, Tried, Repeats;
    LinkedInside(h, head, prev, shift, mask);
    SameChain(h, p, h.base + str, r, shift, mask);
    RepeatsBounds(h.input, p, h.base + str, r);
    AllTried(h, head, prev, str, limit, n, p, shift, mask);
    var tried := Tried(prev, prev[Slot(str, |prev|)], limit, n);
    var i :| 0 <= i < |tried| && tried[i] == p - h.base;
    assert RepeatsFrom(h, tried[i], str, r);
  }

  lemma RepeatsBounds(data: seq<byte>, from: nat, at: nat, r: nat)
    requires Repeats(data, from, at, r)
    ensures from < at && at + r <= |data|
  {
  }
}
