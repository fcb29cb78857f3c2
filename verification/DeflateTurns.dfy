// A whole run of a match finder: the turns it took, each with what it searched,
// and the symbols that greedy and lazy matching make of them.
module DeflateTurns {
  import opened Basics
  import opened Lz77
  import opened DeflateHash
  import opened DeflateDictionary
  import opened DeflateSearch

  // What deflateInit2_ and lm_init set.
  datatype Settings = Settings(
    shift: bv6, mask: bv32, maxDist: nat, chain: nat, good: nat, lazyLimit: nat, nice: nat, filtered: bool)

  // A turn at one position: the dictionary with the position entered, where it
  // is in the window and how much input there is from there on, and the oldest
  // position whose history is still remembered; the length that the search came
  // back with, what is made of it and the distance it is found at. Or a held
  // byte is let go because the input has run out.
  datatype Turn =
    | Turn(h: History, head: seq<Pos>, prev: seq<Pos>, str: nat, lookahead: nat, floor: nat,
           len: nat, found: nat, dist: nat)
    | Rest(b: byte)

  function Place(t: Turn): nat
    requires t.Turn?
  {
    t.h.base + t.str
  }

  // ----- what one turn looks at

  // The dictionary is in order, and the position is in it if it has three bytes.
  ghost predicate Snapshot(t: Turn, p: Settings) {
    && t.Turn? && Coherent(t.h, t.head, t.prev, p.shift, p.mask)
    && 1 <= t.lookahead && t.h.base + t.str + t.lookahead == |t.h.input|
    && t.str < 2 * |t.prev| && p.maxDist < |t.prev|
    && (t.h.base == t.floor || p.maxDist <= t.str)
    && (3 <= t.lookahead ==> Place(t) in t.h.inserted && t.h.end == Place(t) + 1)
  }

  // The newest string on the chain of this one, 0 for none.
  function First(t: Turn): nat
    requires t.Turn? && t.str < 2 * |t.prev|
  {
    if t.lookahead < 3 then 0 else t.prev[Slot(t.str, |t.prev|)]
  }

  function Limit(t: Turn, p: Settings): nat
    requires t.Turn?
  {
    if t.str > p.maxDist then t.str - p.maxDist else 0
  }

  // How many strings a search may try that wants more than prevLen bytes.
  function Chains(p: Settings, prevLen: nat): nat {
    if prevLen >= p.good then p.chain / 4 else p.chain
  }

  ghost predicate InReach(t: Turn, p: Settings)
    requires t.Turn? && t.str < 2 * |t.prev|
  {
    First(t) != 0 && t.str - First(t) <= p.maxDist
  }

  // The search's answer: the longest of all it may try, within the lookahead.
  ghost predicate Answer(t: Turn, p: Settings, prevLen: nat)
    requires t.Turn? && t.str < 2 * |t.prev|
  {
    && Min(prevLen, t.lookahead) <= t.len <= t.lookahead
    && NoneLonger(t.h, t.str, Tried(t.prev, First(t), Limit(t, p), Chains(p, prevLen)), t.len,
                  Min(p.nice, t.lookahead))
  }

  // Every earlier turn since the history was forgotten has its string in the
  // dictionary.
  ghost predicate EnteredBefore(turns: seq<Turn>, inserted: set<nat>, floor: nat) {
    forall i | 0 <= i < |turns| && turns[i].Turn? && 3 <= turns[i].lookahead && floor <= Place(turns[i]) ::
      Place(turns[i]) in inserted
  }

  // Positions from a on and below b.
  function Range(a: nat, b: int): (r: set<nat>)
    ensures forall p :: p in r <==> a <= p < b
    decreases b - a
  {
    if a < b then Range(a, b - 1) + {b - 1} else {}
  }

  // The positions from a on and below b have been added.
  ghost predicate Grown(before: set<nat>, after: set<nat>, a: nat, b: int) {
    after == before + Range(a, b)
  }

  lemma GrownNone(s: set<nat>, a: nat, b: int)
    ensures b <= a ==> Grown(s, s, a, b)
  {
  }

  lemma GrownNext(before: set<nat>, after: set<nat>, a: nat, b: nat)
    requires Grown(before, after, a, b) && a <= b
    ensures Grown(before, after + {b}, a, b + 1)
  {
  }

  function Least(a: int, b: int): int {
    if a <= b then a else b
  }

  // A turn puts its string into the dictionary, if it has three bytes.
  function Itself(t: Turn): set<nat>
    requires t.Turn?
  {
    if 3 <= t.lookahead then {Place(t)} else {}
  }

  // Greedy matching goes on with the strings that a match covers, unless it is
  // long or near the end.
  function GreedyCovers(t: Turn, p: Settings): set<nat>
    requires t.Turn?
  {
    if 3 <= t.found <= p.lazyLimit && t.found + 3 <= t.lookahead then Range(Place(t) + 1, Place(t) + t.found) else {}
  }

  // Lazy matching does when the match of the turn before is taken, with all
  // strings in it that have three bytes.
  function LazyCovers(best: nat, t: Turn): set<nat>
    requires t.Turn?
  {
    if 3 <= best && t.found <= best then
      Range(Place(t) + 1, Least(Place(t) + best - 1, |t.h.input| - 2))
    else {}
  }

  // What every turn saw is what was read up to then.
  ghost predicate FromInput(turns: seq<Turn>, input: seq<byte>) {
    forall i | 0 <= i < |turns| && turns[i].Turn? :: turns[i].h.input <= input
  }

  // Every turn had input ahead of it.
  ghost predicate AllAhead(turns: seq<Turn>) {
    forall i | 0 <= i < |turns| && turns[i].Turn? :: Place(turns[i]) < |turns[i].h.input|
  }

  lemma FromInputMore(turns: seq<Turn>, input: seq<byte>, longer: seq<byte>)
    requires FromInput(turns, input) && input <= longer
    ensures FromInput(turns, longer)
  {
    forall i | 0 <= i < |turns| && turns[i].Turn? ensures turns[i].h.input <= longer {
      assert turns[i].h.input <= input;
    }
  }

  lemma EnteredMore(turns: seq<Turn>, inserted: set<nat>, more: set<nat>, floor: nat)
    requires EnteredBefore(turns, inserted, floor) && inserted <= more
    ensures EnteredBefore(turns, more, floor)
  {
  }

  lemma EnteredNext(turns: seq<Turn>, t: Turn, inserted: set<nat>, floor: nat)
    requires EnteredBefore(turns, inserted, floor)
    requires t.Turn? && (3 <= t.lookahead ==> Place(t) in inserted)
    ensures EnteredBefore(turns + [t], inserted, floor)
  {
    forall i | 0 <= i < |turns + [t]| && (turns + [t])[i].Turn? && 3 <= (turns + [t])[i].lookahead
      && floor <= Place((turns + [t])[i])
      ensures Place((turns + [t])[i]) in inserted
    {
      if i < |turns| {
        assert (turns + [t])[i] == turns[i];
      }
    }
  }

  // The strings of the turns since the history was last forgotten are in the
  // dictionary, and the window goes back as far as a match may reach, or to
  // where the history starts.
  ghost predicate Follows(turns: seq<Turn>, h: History, str: nat, floor: nat, maxDist: nat) {
    && EnteredBefore(turns, h.inserted, floor) && FromInput(turns, h.input) && AllAhead(turns)
    && (h.base == floor || maxDist <= str)
  }

  lemma FollowsOn(turns: seq<Turn>, h: History, str: nat, floor: nat, maxDist: nat, later: History, next: nat)
    requires Follows(turns, h, str, floor, maxDist)
    requires h.input <= later.input && h.inserted <= later.inserted
    requires (later.base == h.base && str <= next) || maxDist <= next
    ensures Follows(turns, later, next, floor, maxDist)
  {
    hide AllAhead, EnteredBefore, FromInput;
    EnteredMore(turns, h.inserted, later.inserted, floor);
    FromInputMore(turns, h.input, later.input);
  }

  lemma FollowNext(turns: seq<Turn>, t: Turn, maxDist: nat)
    requires t.Turn? && Follows(turns, t.h, t.str, t.floor, maxDist)
    requires Place(t) < |t.h.input| && (3 <= t.lookahead ==> Place(t) in t.h.inserted)
    ensures Follows(turns + [t], t.h, t.str, t.floor, maxDist)
  {
    EnteredNext(turns, t, t.h.inserted, t.floor);
  }

  // A turn of a call: it does not look back beyond where the history starts, and
  // looks ahead as far as there is input, or far enough for any match.
  ghost predicate OfCall(t: Turn, floor: nat, fed: seq<byte>) {
    t.Turn? ==> t.floor == floor && (262 <= t.lookahead || t.h.input == fed)
  }

  ghost predicate NewTurns(before: seq<Turn>, after: seq<Turn>, floor: nat, fed: seq<byte>) {
    before <= after && forall i | |before| <= i < |after| :: OfCall(after[i], floor, fed)
  }

  lemma NoNewTurns(turns: seq<Turn>, floor: nat, fed: seq<byte>)
    ensures NewTurns(turns, turns, floor, fed)
  {
  }

  lemma OneNewTurn(turns: seq<Turn>, t: Turn, floor: nat, fed: seq<byte>)
    requires OfCall(t, floor, fed)
    ensures NewTurns(turns, turns + [t], floor, fed)
  {
  }

  lemma MoreTurns(before: seq<Turn>, middle: seq<Turn>, after: seq<Turn>, floor: nat, fed: seq<byte>)
    requires NewTurns(before, middle, floor, fed) && NewTurns(middle, after, floor, fed)
    ensures NewTurns(before, after, floor, fed)
  {
    hide OfCall;
    forall i | |before| <= i < |after| ensures OfCall(after[i], floor, fed) {
      if i < |middle| {
        assert after[i] == middle[i];
      }
    }
  }

  // ----- greedy matching

  ghost predicate GreedyTurn(t: Turn, p: Settings) {
    && Snapshot(t, p)
    && if InReach(t, p) then Answer(t, p, 2) && t.found == t.len else t.found < 3
  }

  function ByteAt(t: Turn, at: int): byte
    requires t.Turn?
  {
    if 0 <= at < |t.h.input| then t.h.input[at] else 0
  }

  function GreedySymbol(t: Turn): Symbol
    requires t.Turn?
  {
    if t.found >= 3 then Match(t.dist, t.found) else Literal(ByteAt(t, Place(t)))
  }

  function GreedySize(t: Turn): nat
    requires t.Turn?
  {
    if t.found >= 3 then t.found else 1
  }

  // The symbols are those of greedy matching, turn by turn, up to a position.
  ghost predicate GreedyRun(turns: seq<Turn>, p: Settings, syms: seq<Symbol>, at: nat) {
    if turns == [] then syms == [] && at == 0
    else
      var n := |turns| - 1;
      var t := turns[n];
      && t.Turn? && GreedyTurn(t, p) && EnteredBefore(turns[..n], t.h.inserted, t.floor)
      && |syms| == |turns| && syms[n] == GreedySymbol(t) && at == Place(t) + GreedySize(t)
      && GreedyRun(turns[..n], p, syms[..n], Place(t))
  }

  lemma GreedyNext(turns: seq<Turn>, p: Settings, syms: seq<Symbol>, t: Turn)
    requires t.Turn? && GreedyTurn(t, p) && EnteredBefore(turns, t.h.inserted, t.floor)
    requires GreedyRun(turns, p, syms, Place(t))
    ensures GreedyRun(turns + [t], p, syms + [GreedySymbol(t)], Place(t) + GreedySize(t))
  {
    hide GreedyTurn, EnteredBefore;
    GreedyLength(turns, p, syms, Place(t));
    assert (turns + [t])[..|turns|] == turns && (syms + [GreedySymbol(t)])[..|turns|] == syms;
  }

  lemma {:induction false} GreedyLength(turns: seq<Turn>, p: Settings, syms: seq<Symbol>, at: nat)
    requires GreedyRun(turns, p, syms, at)
    ensures |syms| == |turns|
  {
  }

  // ----- lazy matching

  // The symbols so far, the next position, whether the byte before it is held
  // back, and the length and distance of a match for that byte.
  datatype Held = Held(syms: seq<Symbol>, at: nat, held: bool, best: nat, dist: nat)

  // A match found is taken unless the next turn has a longer one.
  function LazyNext(q: Held, t: Turn): Held {
    match t
    case Rest(b) => Held(if q.held then q.syms + [Literal(b)] else q.syms, q.at, false, q.best, q.dist)
    case Turn(_, _, _, _, _, _, _, found, dist) =>
      if 3 <= q.best && found <= q.best then
        Held(q.syms + [Match(q.dist, q.best)], q.at + q.best - 1, false, 2, dist)
      else
        Held(if q.held then q.syms + [Literal(ByteAt(t, q.at - 1))] else q.syms, q.at + 1, true, found, dist)
  }

  function Lazy(turns: seq<Turn>): Held {
    if turns == [] then Held([], 0, false, 2, 0)
    else LazyNext(Lazy(turns[..|turns| - 1]), turns[|turns| - 1])
  }

  // No search unless the match held is short; a short new match is not worth a
  // filter or a long way.
  ghost predicate LazyTurn(q: Held, t: Turn, p: Settings) {
    && Snapshot(t, p) && Place(t) == q.at
    && if InReach(t, p) && q.best < p.lazyLimit then
         && Answer(t, p, q.best)
         && t.found == if t.len <= 5 && (p.filtered || (t.len == 3 && t.dist > 4096)) then 2 else t.len
       else t.found == 2
  }

  ghost predicate LazyRun(turns: seq<Turn>, p: Settings) {
    turns == [] ||
    var n := |turns| - 1;
    var t := turns[n];
    && (t.Turn? ==> LazyTurn(Lazy(turns[..n]), t, p) && EnteredBefore(turns[..n], t.h.inserted, t.floor))
    && LazyRun(turns[..n], p)
  }

  lemma LazyStep(turns: seq<Turn>, p: Settings, t: Turn)
    requires LazyRun(turns, p)
    requires t.Turn? ==> LazyTurn(Lazy(turns), t, p) && EnteredBefore(turns, t.h.inserted, t.floor)
    ensures LazyRun(turns + [t], p) && Lazy(turns + [t]) == LazyNext(Lazy(turns), t)
  {
    hide LazyTurn, EnteredBefore, LazyNext;
    assert (turns + [t])[..|turns|] == turns;
  }

  // ----- a longest match, over whole runs

  // A search with enough tries finds the longest repetition among the strings
  // of all earlier turns that it can reach.
  lemma LongestOfEarlier(turns: seq<Turn>, t: Turn, p: Settings, prevLen: nat, i: nat, r: nat)
    requires Snapshot(t, p) && EnteredBefore(turns, t.h.inserted, t.floor) && i < |turns|
    requires turns[i].Turn? && 3 <= turns[i].lookahead
    requires t.floor < Place(turns[i]) && Place(t) < Place(turns[i]) + p.maxDist
    requires Repeats(t.h.input, Place(turns[i]), Place(t), r) && 3 <= r <= 258
    requires Chains(p, prevLen) >= 2 * |t.prev|
    ensures InReach(t, p)
    ensures Answer(t, p, prevLen) ==> r <= t.len || Min(p.nice, t.lookahead) <= t.len
  {
    hide Linked, HeadsReach, LinksReach, Tried, Repeats, NoneLonger;
    var q := Place(turns[i]);
    RepeatsBounds(t.h.input, q, Place(t), r);
    assert q in t.h.inserted;
    var n, enough := Chains(p, prevLen), Min(p.nice, t.lookahead);
    ReachedByLink(t, p, q, r);
    if Answer(t, p, prevLen) {
      LongestInReach(t.h, t.head, t.prev, t.str, Limit(t, p), n, t.len, enough, q, r, p.shift, p.mask);
    }
  }

  lemma ReachedByLink(t: Turn, p: Settings, q: nat, r: nat)
    requires Snapshot(t, p) && 3 <= t.lookahead
    requires q in t.h.inserted && t.h.base + Limit(t, p) < q && Repeats(t.h.input, q, Place(t), r) && 3 <= r
    ensures InReach(t, p)
  {
    hide Linked, HeadsReach, Repeats, Chain, HashParameters;
    LinkedInside(t.h, t.head, t.prev, p.shift, p.mask);
    SameChain(t.h, q, Place(t), r, p.shift, p.mask);
    RepeatsBounds(t.h.input, q, Place(t), r);
    FollowLink(t.h, t.head, t.prev, t.str, p.shift, p.mask);
    assert LinkReaches(t.h, t.prev, t.str, p.shift, p.mask);
  }

  // In a greedy run the n-th symbol is a match at least as long as any
  // repetition of the string of an earlier turn, unless that is longer than the
  // settings ask for.
  lemma {:induction false} GreedyLongest(
    turns: seq<Turn>, p: Settings, syms: seq<Symbol>, at: nat, i: nat, n: nat, r: nat)
    requires GreedyRun(turns, p, syms, at) && i < n < |turns| && |syms| == |turns|
    requires turns[i].Turn? && turns[n].Turn? && 3 <= turns[i].lookahead
    requires turns[n].floor < Place(turns[i]) && Place(turns[n]) < Place(turns[i]) + p.maxDist
    requires Repeats(turns[n].h.input, Place(turns[i]), Place(turns[n]), r) && 3 <= r <= 258
    requires Chains(p, 2) >= 2 * |turns[n].prev| && 3 <= p.nice
    ensures syms[n].Match? && Min(r, Min(p.nice, turns[n].lookahead)) <= syms[n].len
  {
    hide Snapshot, Answer, InReach, Repeats, EnteredBefore;
    var k := |turns| - 1;
    if n == k {
      LongestOfEarlier(turns[..k], turns[n], p, 2, i, r);
      RepeatsBounds(turns[n].h.input, Place(turns[i]), Place(turns[n]), r);
      SnapshotEnd(turns[n], p);
    } else {
      GreedyLongest(turns[..k], p, syms[..k], Place(turns[k]), i, n, r);
    }
  }

  lemma SnapshotEnd(t: Turn, p: Settings)
    requires Snapshot(t, p)
    ensures Place(t) + t.lookahead == |t.h.input|
  {
  }

  // In a lazy run, whenever a search is due, the match that it comes back with
  // is at least as long as any repetition of the string of an earlier turn.
  lemma {:induction false} LazyLongest(turns: seq<Turn>, p: Settings, i: nat, n: nat, r: nat)
    requires LazyRun(turns, p) && i < n < |turns|
    requires turns[i].Turn? && turns[n].Turn? && 3 <= turns[i].lookahead
    requires turns[n].floor < Place(turns[i]) && Place(turns[n]) < Place(turns[i]) + p.maxDist
    requires Repeats(turns[n].h.input, Place(turns[i]), Place(turns[n]), r) && 3 <= r <= 258
    requires p.chain >= 8 * |turns[n].prev| && Lazy(turns[..n]).best < p.lazyLimit
    ensures Min(r, Min(p.nice, turns[n].lookahead)) <= turns[n].len
    ensures turns[n].found == turns[n].len || (turns[n].found == 2 && turns[n].len <= 5)
  {
    hide Snapshot, Answer, InReach, Repeats, EnteredBefore, Lazy;
    var k := |turns| - 1;
    if n == k {
      LongestOfEarlier(turns[..k], turns[n], p, Lazy(turns[..n]).best, i, r);
    } else {
      assert turns[..k][..n] == turns[..n];
      LazyLongest(turns[..k], p, i, n, r);
    }
  }
}
