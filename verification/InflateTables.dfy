// Decoding tables as inflate_table lays them out, and what one symbol of a
// compressed block is when read through them, a code at a time.
module InflateTables {
  import opened Lz77
  import opened Powers

  // op: operation, extra bits or table bits; bits: how many this part of the
  // code has; val: a literal, a base length or distance, or where the next
  // table starts.
  datatype Code = Code(op: bv8, bits: nat, val: nat)

  datatype Kind = Lit | Base(extra: nat) | Link(width: nat) | EndOfBlock | Invalid

  function LowNibble(op: bv8): (r: nat)
    ensures r < 16
  {
    NibbleFits(op);
    (op & 15) as nat
  }

  lemma NibbleFits(op: bv8)
    ensures (op & 15) as nat < 16
  {
  }

  function KindOf(op: bv8): Kind {
    if op == 0 then Lit
    else if op & 16 != 0 then Base(LowNibble(op))
    else if op & 64 == 0 then Link(op as nat)
    else if op & 32 != 0 then EndOfBlock
    else Invalid
  }

  // The first level is indexed by `root` bits.
  datatype Table = Table(codes: seq<Code>, root: nat)

  // A complete code, or a link to a second table all of whose entries are.
  ghost predicate EntryOk(t: Table, e: Code) {
    if KindOf(e.op).Link? then
      var width := KindOf(e.op).width;
      && e.bits + width <= 15 && e.val + Pow2(width) <= |t.codes|
      && forall j | e.val <= j < e.val + Pow2(width) ::
           !KindOf(t.codes[j].op).Link? && e.bits + t.codes[j].bits <= 15
    else
      e.bits <= 15
  }

  ghost predicate TableOk(t: Table) {
    && t.root <= 15 && Pow2(t.root) <= |t.codes|
    && forall i | 0 <= i < Pow2(t.root) :: EntryOk(t, t.codes[i])
  }

  ghost predicate LengthsOk(t: Table) {
    && TableOk(t)
    && forall i | 0 <= i < |t.codes| && KindOf(t.codes[i].op).Base? ::
         var extra := KindOf(t.codes[i].op).extra;
         extra <= 5 && 3 <= t.codes[i].val && t.codes[i].val + Pow2(extra) <= 259
  }

  ghost predicate DistancesOk(t: Table) {
    && TableOk(t)
    && (forall i | 0 <= i < |t.codes| :: !KindOf(t.codes[i].op).Lit?)
    && forall i | 0 <= i < |t.codes| && KindOf(t.codes[i].op).Base? ::
         var extra := KindOf(t.codes[i].op).extra;
         extra <= 13 && 1 <= t.codes[i].val && t.codes[i].val + Pow2(extra) <= 32769
  }

  // ----- one code at a time

  // The entry that the bits of v select, and how many bits the code has.
  ghost function FindCode(t: Table, v: nat): (r: (Code, nat))
    requires TableOk(t)
    ensures r.1 <= 15 && !KindOf(r.0.op).Link? && r.0 in t.codes
  {
    var e := t.codes[Low(v, t.root)];
    if KindOf(e.op).Link? then
      var sub := t.codes[e.val + Low(High(v, e.bits), KindOf(e.op).width)];
      (sub, e.bits + sub.bits)
    else
      (e, e.bits)
  }

  datatype Decoded = Sym(s: Symbol) | End | BadLength | BadDistance

  // The match that the bits of v, at a distance code, make with a length.
  ghost function DecodeDistance(dists: Table, v: nat, len: nat): (Decoded, nat)
    requires TableOk(dists)
  {
    var (e, used) := FindCode(dists, v);
    match KindOf(e.op)
    case Base(extra) => (Sym(Match(e.val + Low(High(v, used), extra), len)), used + extra)
    case _ => (BadDistance, used)
  }

  // What the bits of v start with, and how many of them that takes.
  ghost function DecodeOne(lens: Table, dists: Table, v: nat): (Decoded, nat)
    requires TableOk(lens) && TableOk(dists)
  {
    var (e, used) := FindCode(lens, v);
    match KindOf(e.op)
    case Lit => (Sym(Literal((e.val % 256) as bv8)), used)
    case EndOfBlock => (End, used)
    case Base(extra) =>
      var len := e.val + Low(High(v, used), extra);
      var (d, more) := DecodeDistance(dists, High(v, used + extra), len);
      (d, used + extra + more)
    case _ => (BadLength, used)
  }

  // No symbol takes more than six bytes of input or makes more than 258 of
  // output.
  lemma SymbolBounds(lens: Table, dists: Table, v: nat)
    requires LengthsOk(lens) && DistancesOk(dists)
    ensures DecodeOne(lens, dists, v).1 <= 48
    ensures var d := DecodeOne(lens, dists, v).0;
      d.Sym? && d.s.Match? ==> 3 <= d.s.len <= 258 && 1 <= d.s.dist <= 32768
  {
    hide Pow2, Low, High, KindOf, FindCode, TableOk;
    var (e, used) := FindCode(lens, v);
    if KindOf(e.op).Base? {
      var (d, more) := FindCode(dists, High(v, used + KindOf(e.op).extra));
    }
  }

  // Where the n-th symbol of a block starts, in bits.
  ghost function Position(lens: Table, dists: Table, stream: nat, n: nat): nat
    requires TableOk(lens) && TableOk(dists)
  {
    if n == 0 then 0
    else
      var p := Position(lens, dists, stream, n - 1);
      p + DecodeOne(lens, dists, High(stream, p)).1
  }

  // The n-th symbol of the block in the stream.
  ghost function At(lens: Table, dists: Table, stream: nat, n: nat): Decoded
    requires TableOk(lens) && TableOk(dists)
  {
    DecodeOne(lens, dists, High(stream, Position(lens, dists, stream, n))).0
  }

  // The block starts with these symbols.
  ghost predicate StartsWith(lens: Table, dists: Table, stream: nat, syms: seq<Symbol>)
    requires TableOk(lens) && TableOk(dists)
  {
    forall i | 0 <= i < |syms| :: At(lens, dists, stream, i) == Sym(syms[i])
  }
}
