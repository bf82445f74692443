/** The instructions a compiled regular expression consists of, and their byte encoding. */
module Program {
  import opened Bytes

  const CBRA: byte := 2
  const CCHR: byte := 4
  const CDOT: byte := 8
  const CCL: byte := 12
  const CXCL: byte := 16
  const CDOL: byte := 20
  const CCEOF: byte := 22
  const CKET: byte := 24
  const CBACK: byte := 36
  const NCCL: byte := 40

  const STAR: byte := 1
  const RNGE: byte := 3

  const NBRA: nat := 9

  /** The upper bound byte of `\{m,\}`, and the number of extra copies it stands for. */
  const OPEN_ENDED: byte := 255
  const OPEN_ENDED_COPIES: nat := 20000

  /** What matches one character. A class keeps the bytes placed in its map and its map's width. */
  datatype Atom =
    | Chr(c: byte)
    | Dot
    | Cls(placed: set<byte>, wide: bool, neg: bool)

  datatype Quant = Once | Star | Range(lo: byte, hi: byte)

  datatype Instr =
    | Item(atom: Atom, quant: Quant)
    | Dol
    | Bra(n: byte)
    | Ket(n: byte)
    | Back(n: byte)
    | Eof

  /** Does the atom match character c? The terminating NUL is matched by nothing. */
  predicate Has(a: Atom, c: byte) {
    c != 0 &&
    match a
    case Chr(d) => c == d
    case Dot => true
    case Cls(placed, _, neg) => (c in placed) != neg
  }

  // ----- well-formedness -----

  predicate ValidAtom(a: Atom) {
    match a
    case Chr(c) => c != 0
    case Dot => true
    case Cls(placed, wide, _) => 0 !in placed && (!wide ==> forall c :: c in placed ==> c < 128)
  }

  predicate ValidQuant(q: Quant) {
    q.Range? ==> q.lo < OPEN_ENDED && q.lo <= q.hi
  }

  /**
   * The instructions end in one Eof, groups are opened in index order, closed last-opened-first and
   * below NBRA, and a back-reference names a group that is already closed.
   * `open` are the groups open before the first instruction, `nbra` the number opened so far.
   */
  ghost predicate WellFormed(prog: seq<Instr>, open: seq<byte>, nbra: nat) {
    prog != [] &&
    var rest := prog[1..];
    match prog[0]
    case Eof => rest == [] && open == []
    case Dol => WellFormed(rest, open, nbra)
    case Item(a, q) => ValidAtom(a) && ValidQuant(q) && WellFormed(rest, open, nbra)
    case Bra(n) => n == nbra && nbra < NBRA && WellFormed(rest, open + [n], nbra + 1)
    case Ket(n) => open != [] && n == open[|open| - 1] && WellFormed(rest, open[..|open| - 1], nbra)
    case Back(n) => n < nbra && n !in open && WellFormed(rest, open, nbra)
  }

  /**
   * What the compiler sees to: as above, but a back-reference is only compared with how many groups are closed.
   */
  ghost predicate Assembled(prog: seq<Instr>, open: seq<byte>, nbra: nat) {
    prog != [] &&
    var rest := prog[1..];
    match prog[0]
    case Eof => rest == [] && open == []
    case Dol => Assembled(rest, open, nbra)
    case Item(a, q) => ValidAtom(a) && ValidQuant(q) && Assembled(rest, open, nbra)
    case Bra(n) => n == nbra && nbra < NBRA && Assembled(rest, open + [n], nbra + 1)
    case Ket(n) => open != [] && n == open[|open| - 1] && Assembled(rest, open[..|open| - 1], nbra)
    case Back(n) => n < nbra - |open| && Assembled(rest, open, nbra)
  }

  /** Every back-reference reads a span whose start and end have been written, beside those written before. */
  ghost predicate ReadsWritten(prog: seq<Instr>, starts: set<byte>, ends: set<byte>) {
    prog == [] ||
    var rest := prog[1..];
    match prog[0]
    case Bra(n) => ReadsWritten(rest, starts + {n}, ends)
    case Ket(n) => ReadsWritten(rest, starts, ends + {n})
    case Back(n) => n in starts && n in ends && ReadsWritten(rest, starts, ends)
    case _ => ReadsWritten(rest, starts, ends)
  }

  /** The groups opened so far have a start, those of them that are closed an end. */
  ghost predicate WrittenSoFar(open: seq<byte>, nbra: nat, starts: set<byte>, ends: set<byte>) {
    && (forall n: byte :: n in starts <==> n < nbra)
    && (forall n: byte :: n in ends <==> n < nbra && n !in open)
    && (forall j, k :: 0 <= j < k < |open| ==> open[j] != open[k])
    && (forall k :: 0 <= k < |open| ==> open[k] < nbra)
  }

  /** What the compiler accepts is well-formed exactly when no back-reference reads a span not yet written. */
  lemma {:induction false} WellFormedReads(prog: seq<Instr>, open: seq<byte>, nbra: nat, starts: set<byte>,
                                           ends: set<byte>)
    requires Assembled(prog, open, nbra) && WrittenSoFar(open, nbra, starts, ends)
    ensures WellFormed(prog, open, nbra) <==> ReadsWritten(prog, starts, ends)
    decreases |prog|
  {
    var rest := prog[1..];
    match prog[0]
    case Eof =>
    case Bra(n) =>
      WellFormedReads(rest, open + [n], nbra + 1, starts + {n}, ends);
    case Ket(n) =>
      Unnested(open, nbra, starts, ends);
      WellFormedReads(rest, open[..|open| - 1], nbra, starts, ends + {n});
    case _ => WellFormedReads(rest, open, nbra, starts, ends);
  }

  lemma Unnested(open: seq<byte>, nbra: nat, starts: set<byte>, ends: set<byte>)
    requires WrittenSoFar(open, nbra, starts, ends) && open != []
    ensures WrittenSoFar(open[..|open| - 1], nbra, starts, ends + {open[|open| - 1]})
  {
    var inner, n := open[..|open| - 1], open[|open| - 1];
    assert open == inner + [n];
  }

  // ----- byte encoding -----

  /** The values a class's map has bits for: NCCL also sets the NUL bit so that its negated test fails on NUL. */
  function MapBits(placed: set<byte>, wide: bool, neg: bool): set<byte> {
    if !neg then placed
    else if wide then set b: byte | 0 <= b < 256 && b != 0 && b !in placed
    else placed + {0}
  }

  function MapSize(wide: bool): nat {
    if wide then 32 else 16
  }

  function Opcode(a: Atom): byte {
    match a
    case Chr(_) => CCHR
    case Dot => CDOT
    case Cls(_, wide, neg) => if wide then CXCL else if neg then NCCL else CCL
  }

  function QuantBits(q: Quant): byte {
    match q
    case Once => 0
    case Star => STAR
    case Range(_, _) => RNGE
  }

  function Operand(a: Atom): seq<byte> {
    match a
    case Chr(c) => [c]
    case Dot => []
    case Cls(placed, wide, neg) => Bitmap(MapBits(placed, wide, neg), MapSize(wide))
  }

  function Bounds(q: Quant): seq<byte> {
    if q.Range? then [q.lo, q.hi] else []
  }

  function EncodeInstr(i: Instr): (r: seq<byte>)
    ensures |r| >= 1
  {
    match i
    case Item(a, q) => [Opcode(a) + QuantBits(q)] + Operand(a) + Bounds(q)
    case Dol => [CDOL]
    case Bra(n) => [CBRA, n]
    case Ket(n) => [CKET, n]
    case Back(n) => [CBACK, n]
    case Eof => [CCEOF]
  }

  function Encode(prog: seq<Instr>): seq<byte> {
    if prog == [] then [] else EncodeInstr(prog[0]) + Encode(prog[1..])
  }

  // ----- the one-character test on bytes -----

  /**
   * The test every one-character case of `_advance` makes, with ep at the operand: op is the opcode
   * without its quantifier bits. A class narrower than 256 bits never finds a byte above 127.
   */
  predicate Test(op: byte, operand: seq<byte>, c: byte)
    requires op == CCHR ==> |operand| >= 1
    requires op == CCL || op == NCCL ==> |operand| >= 16
    requires op == CXCL ==> |operand| >= 32
  {
    if op == CCHR then c == operand[0]
    else if op == CDOT then c != 0
    else if op == CXCL then IsThere(operand[c / 8], c)
    else if op == CCL then c < 128 && IsThere(operand[c / 8], c)
    else if op == NCCL then !(c < 128 && IsThere(operand[c / 8], c))
    else false
  }

  /** On an encoded atom the byte test decides exactly the atom's characters. */
  lemma TestDecides(a: Atom, operand: seq<byte>, c: byte)
    requires ValidAtom(a) && Operand(a) <= operand
    ensures Test(Opcode(a), operand, c) <==> Has(a, c)
  {
    if a.Cls? {
      var bits := MapBits(a.placed, a.wide, a.neg);
      assert |Operand(a)| == MapSize(a.wide);
      if c / 8 < MapSize(a.wide) {
        assert operand[c / 8] == Operand(a)[c / 8];
        IsThereDecides(bits, MapSize(a.wide), c);
      }
    }
  }
}
