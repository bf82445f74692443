/** The backtracking matcher of regexp.c: `_advance` and `getrnge` on the bytes of a program. */
module Matcher {
  import opened Options
  import opened Bytes
  import opened Program
  import opened MatchSpec

  // ----- reading one instruction off the bytes -----

  predicate IsAtomOpcode(op: int) {
    op == CCHR || op == CDOT || op == CCL || op == CXCL || op == NCCL
  }

  function OperandSize(op: byte): nat
    requires IsAtomOpcode(op)
  {
    if op == CCHR then 1 else if op == CDOT then 0 else if op == CXCL then 32 else 16
  }

  lemma PrefixSplits(x: seq<byte>, y: seq<byte>, code: seq<byte>, ep: nat)
    requires ep <= |code| && x + y <= code[ep..]
    ensures ep + |x| <= |code| && x <= code[ep..] && y <= code[ep + |x|..]
    ensures forall k :: 0 <= k < |x| ==> code[ep + k] == x[k]
  {
    var c := code[ep..];
    assert code[ep + |x|..] == c[|x|..];
    assert (x + y)[..|x|] == x && (x + y)[|x|..] == y;
    forall k | 0 <= k < |x|
      ensures code[ep + k] == x[k]
    {
      assert c[k] == (x + y)[k];
    }
  }

  /** What the bytes at ep are when they start with the encoding of p. */
  lemma DecodeHead(p: seq<Instr>, code: seq<byte>, ep: nat)
    requires p != [] && ep <= |code| && Encode(p) <= code[ep..]
    ensures ep + |EncodeInstr(p[0])| <= |code| && Encode(p[1..]) <= code[ep + |EncodeInstr(p[0])|..]
    ensures EncodeInstr(p[0]) <= code[ep..]
    ensures code[ep] == EncodeInstr(p[0])[0]
  {
    hide EncodeInstr;
    PrefixSplits(EncodeInstr(p[0]), Encode(p[1..]), code, ep);
  }

  /** The group of a CBRA, CKET or CBACK. */
  lemma DecodeGroup(p: seq<Instr>, code: seq<byte>, ep: nat)
    requires p != [] && ep <= |code| && Encode(p) <= code[ep..] && (p[0].Bra? || p[0].Ket? || p[0].Back?)
    ensures ep + 2 <= |code| && code[ep + 1] == p[0].n && Encode(p[1..]) <= code[ep + 2..]
    ensures code[ep] == if p[0].Bra? then CBRA else if p[0].Ket? then CKET else CBACK
  {
    hide EncodeInstr, Encode;
    GroupBytes(p[0]);
    DecodeHead(p, code, ep);
    assert code[ep + 1] == code[ep..][1];
  }

  lemma GroupBytes(i: Instr)
    requires i.Bra? || i.Ket? || i.Back?
    ensures EncodeInstr(i) == [if i.Bra? then CBRA else if i.Ket? then CKET else CBACK, i.n]
  {
  }

  /** What the first byte of an instruction says about it. */
  lemma HeadTells(p: seq<Instr>, open: seq<byte>, nbra: nat, code: seq<byte>, ep: nat)
    requires WellFormed(p, open, nbra) && ep <= |code| && Encode(p) <= code[ep..]
    ensures p != [] && ep < |code|
    ensures code[ep] == CCEOF <==> p[0].Eof?
    ensures code[ep] == CBACK <==> p[0].Back?
    ensures code[ep] == CBRA || code[ep] == CKET <==> p[0].Bra? || p[0].Ket?
    ensures IsAtomOpcode(code[ep] - RNGE) <==> p[0].Item? && p[0].quant.Range?
    ensures !IsAtomOpcode(code[ep] - RNGE) ==> (IsAtomOpcode(code[ep] - STAR) <==> p[0].Item? && p[0].quant.Star?)
    ensures !p[0].Bra? ==> Groups(p) == Groups(p[1..])
  {
    DecodeHead(p, code, ep);
  }

  lemma DecodeItem(a: Atom, q: Quant, code: seq<byte>, ep: nat)
    requires ep <= |code| && EncodeInstr(Item(a, q)) <= code[ep..]
    ensures ep < |code| && Operand(a) <= code[ep + 1..] && |Operand(a)| == OperandSize(Opcode(a))
    ensures |EncodeInstr(Item(a, q))| == 1 + OperandSize(Opcode(a)) + |Bounds(q)|
    ensures q.Range? ==> var str := ep + 1 + OperandSize(Opcode(a)); str + 1 < |code| && Bounds(q) <= code[str..]
  {
    hide EncodeInstr, Operand, Bounds;
    var head := [Opcode(a) + QuantBits(q)];
    ItemBytes(a, q);
    PrefixSplits(head, Operand(a) + Bounds(q), code, ep);
    PrefixSplits(Operand(a), Bounds(q), code, ep + 1);
  }

  lemma ItemBytes(a: Atom, q: Quant)
    ensures EncodeInstr(Item(a, q)) == [Opcode(a) + QuantBits(q)] + (Operand(a) + Bounds(q))
    ensures |Operand(a)| == OperandSize(Opcode(a)) && (q.Range? ==> |Bounds(q)| == 2)
  {
    hide Operand, Bitmap;
    OperandBytes(a);
    assert [Opcode(a) + QuantBits(q)] + Operand(a) + Bounds(q) == [Opcode(a) + QuantBits(q)] + (Operand(a) + Bounds(q));
  }

  lemma OperandBytes(a: Atom)
    ensures |Operand(a)| == OperandSize(Opcode(a))
  {
  }

  // ----- the matcher -----

  class StepVars {
    var loc1: nat
    var loc2: nat
    var locs: Option<nat>
    var braslist: seq<nat>
    var braelist: seq<nat>
    var low: int
    var size: int

    ghost predicate Valid()
      reads this
    {
      |braslist| == NBRA && |braelist| == NBRA
    }

    ghost function Spans(): Spans
      requires Valid()
      reads this
    {
      SpanTable(braslist, braelist)
    }

    /** The code at ep is prog's, and the groups prog may refer to have settled before lp. */
    ghost predicate Ready(prog: seq<Instr>, open: seq<byte>, nbra: nat, line: seq<byte>, lp: nat, code: seq<byte>,
                          ep: nat)
      reads this
    {
      && Valid() && NulFree(line) && lp <= |line|
      && ep <= |code| && Encode(prog) <= code[ep..]
      && WellFormed(prog, open, nbra) && Settled(Spans(), open, nbra, lp)
    }

    constructor ()
      ensures Valid() && locs == None
    {
      loc1, loc2, locs := 0, 0, None;
      braslist := seq(NBRA, _ => 0);
      braelist := seq(NBRA, _ => 0);
      low, size := 0, 0;
    }

    /** `getrnge`: what the two bytes behind an atom say of the copies to take, on a line of any length. */
    method GetRange(code: seq<byte>, str: nat, ghost q: Quant)
      requires q.Range? && ValidQuant(q) && str <= |code| && Bounds(q) <= code[str..]
      modifies this`low, this`size
      ensures low == MinCopies(q) && size >= 0
      ensures forall all: nat :: low + size == MaxCopies(q, all)
    {
      assert code[str] == code[str..][0] == Bounds(q)[0] && code[str + 1] == code[str..][1] == Bounds(q)[1];
      low := code[str];
      size := if code[str + 1] == OPEN_ENDED then OPEN_ENDED_COPIES else code[str + 1] - low;
    }

    /** The scan of the starred cases: lp ends one past the first character that fails the test. */
    method SkipStar(line: seq<byte>, lp0: nat, op: byte, operand: seq<byte>, ghost a: Atom) returns (lp: nat)
      requires lp0 <= |line| && ValidAtom(a) && op == Opcode(a) && Operand(a) <= operand
      ensures lp == lp0 + RunLength(a, line, lp0, |line|) + 1
    {
      lp := lp0;
      while true
        invariant lp0 <= lp <= |line|
        invariant lp - lp0 + RunLength(a, line, lp, |line| - (lp - lp0)) == RunLength(a, line, lp0, |line|)
        decreases |line| - lp
      {
        TestDecides(a, operand, At(line, lp));
        var c := At(line, lp);
        lp := lp + 1;
        if !Test(op, operand, c) {
          break;
        }
      }
    }

    /** The `low` scan of the `\{m,n\}` cases: q.lo characters must pass the test. */
    method SkipLow(line: seq<byte>, lp0: nat, op: byte, operand: seq<byte>, ghost a: Atom, ghost n: nat)
      returns (ok: bool, lp: nat)
      requires lp0 <= |line| && ValidAtom(a) && op == Opcode(a) && Operand(a) <= operand && low == n
      modifies this`low
      ensures ok <==> RunLength(a, line, lp0, n) == n
      ensures ok ==> lp == lp0 + n <= |line|
    {
      lp := lp0;
      var more := low != 0;
      low := low - 1;
      while more
        invariant lp0 <= lp <= |line| && lp - lp0 <= n && low == n - (lp - lp0) - 1
        invariant more <==> lp - lp0 < n
        invariant lp - lp0 + RunLength(a, line, lp, n - (lp - lp0)) == RunLength(a, line, lp0, n)
        decreases n - (lp - lp0)
      {
        TestDecides(a, operand, At(line, lp));
        var c := At(line, lp);
        if !Test(op, operand, c) {
          return false, lp + 1;
        }
        lp := lp + 1;
        more := low != 0;
        low := low - 1;
      }
      ok := true;
    }

    /** The `size` scan: up to n further characters; lp ends one past where backtracking starts. */
    method SkipSize(line: seq<byte>, curlp: nat, op: byte, operand: seq<byte>, ghost a: Atom, ghost n: nat)
      returns (lp: nat)
      requires curlp <= |line| && ValidAtom(a) && op == Opcode(a) && Operand(a) <= operand && size == n
      modifies this`size
      ensures lp == curlp + RunLength(a, line, curlp, n) + 1
    {
      lp := curlp;
      var more := size != 0;
      size := size - 1;
      while more
        invariant curlp <= lp <= |line| && lp - curlp <= n && size == n - (lp - curlp) - 1
        invariant more <==> lp - curlp < n
        invariant lp - curlp + RunLength(a, line, lp, n - (lp - curlp)) == RunLength(a, line, curlp, n)
        decreases n - (lp - curlp)
      {
        TestDecides(a, operand, At(line, lp));
        var c := At(line, lp);
        lp := lp + 1;
        if !Test(op, operand, c) {
          break;
        }
        more := size != 0;
        size := size - 1;
      }
      if size < 0 {
        lp := lp + 1;
      }
    }

    /** `ecmp(bbeg, lp, ct)` for a span inside the line. */
    method SameText(line: seq<byte>, bbeg: nat, lp: nat, ct: nat) returns (same: bool)
      requires NulFree(line) && bbeg + ct <= |line| && lp <= |line|
      ensures same <==> line[bbeg..bbeg + ct] <= line[lp..]
    {
      var k := 0;
      while k < ct
        invariant 0 <= k <= ct && lp + k <= |line|
        invariant line[bbeg..bbeg + k] == line[lp..lp + k]
      {
        if line[bbeg + k] != At(line, lp + k) {
          assert line[bbeg..bbeg + ct][k] == line[bbeg + k];
          assert lp + k < |line| ==> line[lp..][k] == line[lp + k];
          return false;
        }
        assert line[bbeg..bbeg + k + 1] == line[bbeg..bbeg + k] + [line[bbeg + k]];
        assert line[lp..lp + k + 1] == line[lp..lp + k] + [line[lp + k]];
        k := k + 1;
      }
      return true;
    }

    /**
     * The `star:` loop: try the rest of the program at lp - 1, lp - 2, ... down to curlp.
     * It reports what Try reports for these positions.
     */
    method Backtrack(line: seq<byte>, curlp: nat, lp0: nat, code: seq<byte>, ep: nat,
                     ghost rest: seq<Instr>, ghost open: seq<byte>, ghost nbra: nat)
      returns (ok: bool)
      requires curlp < lp0 <= |line| + 1 && Ready(rest, open, nbra, line, curlp, code, ep)
      modifies this`loc2, this`braslist, this`braelist, this`low, this`size
      ensures Valid()
      ensures ok <==> Try(rest, line, curlp, lp0 - 1, locs, old(Spans())).Found?
      ensures ok ==> Try(rest, line, curlp, lp0 - 1, locs, old(Spans())) == Found(loc2, Spans())
      ensures !ok ==> loc2 == old(loc2) && Agree(old(Spans()), Spans(), open, nbra, nbra + Groups(rest))
      decreases |code| - ep, 3
    {
      var lp := lp0;
      ghost var before := Spans();
      while true
        invariant Valid() && curlp < lp <= lp0
        invariant Try(rest, line, curlp, lp0 - 1, locs, before) == Try(rest, line, curlp, lp - 1, locs, before)
        invariant loc2 == old(loc2) && Agree(before, Spans(), open, nbra, nbra + Groups(rest))
        decreases lp
      {
        lp := lp - 1;
        if locs == Some(lp) {
          return false;
        }
        StaleSpans(rest, open, nbra, line, lp, locs, before, Spans());
        SettledAgree(before, Spans(), open, nbra, curlp, lp, nbra + Groups(rest));
        ghost var now := Spans();
        ok := Advance(line, lp, code, ep, rest, open, nbra);
        if ok {
          return true;
        }
        AgreeTrans(before, now, Spans(), open, nbra, open, nbra, nbra + Groups(rest));
        if lp <= curlp {
          return false;
        }
      }
    }

    /** The `| STAR` cases, up to and including the `star:` loop. */
    method Starred(line: seq<byte>, lp: nat, code: seq<byte>, ep0: nat,
                   ghost prog: seq<Instr>, ghost open: seq<byte>, ghost nbra: nat)
      returns (ok: bool)
      requires Ready(prog, open, nbra, line, lp, code, ep0) && prog[0].Item? && prog[0].quant.Star?
      modifies this`loc2, this`braslist, this`braelist, this`low, this`size
      ensures Valid()
      ensures ok <==> Run(prog, line, lp, locs, old(Spans())).Found?
      ensures ok ==> Run(prog, line, lp, locs, old(Spans())) == Found(loc2, Spans())
      ensures !ok ==> loc2 == old(loc2) && Agree(old(Spans()), Spans(), open, nbra, nbra + Groups(prog))
      decreases |code| - ep0, 1
    {
      hide Run, Try, WellFormed, Settled, Encode, Agree, RunLength;
      NotEmpty(prog, open, nbra, Spans(), lp);
      ghost var a, rest := prog[0].atom, prog[1..];
      ItemParts(prog, open, nbra);
      RepetitionTries(prog, line, lp, locs, Spans());
      DecodeHead(prog, code, ep0);
      DecodeItem(a, Star, code, ep0);
      var opcode, ep := code[ep0] - STAR, ep0 + 1;
      var last := SkipStar(line, lp, opcode, code[ep..], a);
      ep := ep + OperandSize(opcode);
      assert Run(prog, line, lp, locs, Spans()) == Try(rest, line, lp, last - 1, locs, Spans());
      ok := Backtrack(line, lp, last, code, ep, rest, open, nbra);
    }

    /** The `| RNGE` cases, up to and including the `star:` loop. */
    method Ranged(line: seq<byte>, lp: nat, code: seq<byte>, ep0: nat,
                  ghost prog: seq<Instr>, ghost open: seq<byte>, ghost nbra: nat)
      returns (ok: bool)
      requires Ready(prog, open, nbra, line, lp, code, ep0) && prog[0].Item? && prog[0].quant.Range?
      modifies this`loc2, this`braslist, this`braelist, this`low, this`size
      ensures Valid()
      ensures ok <==> Run(prog, line, lp, locs, old(Spans())).Found?
      ensures ok ==> Run(prog, line, lp, locs, old(Spans())) == Found(loc2, Spans())
      ensures !ok ==> loc2 == old(loc2) && Agree(old(Spans()), Spans(), open, nbra, nbra + Groups(prog))
      decreases |code| - ep0, 1
    {
      hide Run, Try, WellFormed, Settled, Encode, Agree, RunLength;
      NotEmpty(prog, open, nbra, Spans(), lp);
      ItemParts(prog, open, nbra);
      RepetitionTries(prog, line, lp, locs, Spans());
      AgreeSelf(Spans(), open, nbra, nbra + Groups(prog));
      ghost var before := Spans();
      var scanned, curlp, last, ep := ScanRange(line, lp, code, ep0, prog);
      assert Spans() == before;
      if !scanned {
        return false;
      }
      SettledLater(Spans(), open, nbra, lp, curlp);
      ok := Backtrack(line, curlp, last, code, ep, prog[1..], open, nbra);
    }

    method ScanRange(line: seq<byte>, lp: nat, code: seq<byte>, ep0: nat, ghost prog: seq<Instr>)
      returns (ok: bool, curlp: nat, last: nat, ep: nat)
      requires lp <= |line| && ep0 <= |code| && prog != [] && Encode(prog) <= code[ep0..]
      requires prog[0].Item? && prog[0].quant.Range? && ValidQuant(prog[0].quant) && ValidAtom(prog[0].atom)
      modifies this`low, this`size
      ensures var q := prog[0].quant;
              var n := RunLength(prog[0].atom, line, lp, MaxCopies(q, |line|));
              ok == (n >= q.lo) && (ok ==> curlp == lp + q.lo && last == lp + n + 1)
      ensures ok ==> ep0 < ep <= |code| && Encode(prog[1..]) <= code[ep..]
    {
      hide Encode, RunLength;
      ghost var a, q := prog[0].atom, prog[0].quant;
      DecodeHead(prog, code, ep0);
      DecodeItem(a, q, code, ep0);
      var opcode := code[ep0] - RNGE;
      ep := ep0 + 1;
      GetRange(code, ep + OperandSize(opcode), q);
      ghost var max := MaxCopies(q, |line|);
      RunLengthSplits(a, line, lp, q.lo, max);
      last := 0;
      ok, curlp := SkipLow(line, lp, opcode, code[ep..], a, q.lo);
      if ok {
        last := SkipSize(line, curlp, opcode, code[ep..], a, max - q.lo);
        ep := ep + OperandSize(opcode) + 2;
      }
    }

    /** The one-character cases without quantifier, and CDOL. */
    method Single(line: seq<byte>, lp0: nat, code: seq<byte>, ep0: nat,
                  ghost prog: seq<Instr>, ghost open: seq<byte>, ghost nbra: nat)
      returns (ok: bool, lp: nat, ep: nat)
      requires Ready(prog, open, nbra, line, lp0, code, ep0)
      requires prog[0].Dol? || (prog[0].Item? && prog[0].quant.Once?)
      ensures !ok ==> Run(prog, line, lp0, locs, Spans()) == Fail
      ensures ok ==> ep0 < ep && Ready(prog[1..], open, nbra, line, lp, code, ep)
      ensures ok ==> Run(prog, line, lp0, locs, Spans()) == Run(prog[1..], line, lp, locs, Spans())
    {
      DecodeHead(prog, code, ep0);
      lp, ep := lp0, ep0 + 1;
      if code[ep0] == CDOL {
        return At(line, lp) == 0, lp, ep;
      }
      ghost var a := prog[0].atom;
      DecodeItem(a, Once, code, ep0);
      TestDecides(a, code[ep..], At(line, lp));
      if !Test(code[ep0], code[ep..], At(line, lp)) {
        return false, lp, ep;
      }
      SettledLater(Spans(), open, nbra, lp, lp + 1);
      return true, lp + 1, ep + OperandSize(code[ep0]);
    }

    /** CBACK. */
    method BackReference(line: seq<byte>, lp0: nat, code: seq<byte>, ep0: nat,
                         ghost prog: seq<Instr>, ghost open: seq<byte>, ghost nbra: nat)
      returns (ok: bool, lp: nat, ep: nat)
      requires Ready(prog, open, nbra, line, lp0, code, ep0) && prog[0].Back?
      ensures !ok ==> Run(prog, line, lp0, locs, Spans()) == Fail
      ensures ok ==> ep0 < ep && Ready(prog[1..], open, nbra, line, lp, code, ep)
      ensures ok ==> Run(prog, line, lp0, locs, Spans()) == Run(prog[1..], line, lp, locs, Spans())
    {
      hide Encode, EncodeInstr;
      DecodeGroup(prog, code, ep0);
      var n := code[ep0 + 1];
      var bbeg := braslist[n];
      var ct := braelist[n] - bbeg;
      lp, ep := lp0 + ct, ep0 + 2;
      ok := SameText(line, bbeg, lp0, ct);
      SettledLater(Spans(), open, nbra, lp0, lp);
    }

    /** CBRA and CKET. */
    method Grouping(line: seq<byte>, lp: nat, code: seq<byte>, ep0: nat,
                    ghost prog: seq<Instr>, ghost open: seq<byte>, ghost nbra: nat)
      returns (ep: nat, ghost open': seq<byte>, ghost nbra': nat)
      requires Ready(prog, open, nbra, line, lp, code, ep0) && (prog[0].Bra? || prog[0].Ket?)
      modifies this`braslist, this`braelist
      ensures ep0 < ep && Ready(prog[1..], open', nbra', line, lp, code, ep)
      ensures nbra' >= nbra && nbra' + Groups(prog[1..]) == nbra + Groups(prog)
      ensures Run(prog, line, lp, locs, old(Spans())) == Run(prog[1..], line, lp, locs, Spans())
      ensures Agree(old(Spans()), Spans(), open, nbra, nbra + Groups(prog))
      ensures forall n :: 0 <= n < nbra && n !in open ==> n !in open'
    {
      hide Run, WellFormed, Settled, Encode, EncodeInstr, Agree, Groups;
      NotEmpty(prog, open, nbra, Spans(), lp);
      GroupRuns(prog, open, nbra, line, lp, locs, Spans());
      DecodeGroup(prog, code, ep0);
      ghost var before, total := Spans(), nbra + Groups(prog);
      open', nbra' := open, nbra;
      var n := code[ep0 + 1];
      if code[ep0] == CBRA {
        OpenSettled(before, open, nbra, n, lp);
        OpenWrites(before, open, nbra, total, n, lp);
        braslist := braslist[n := lp];
        open', nbra' := open + [n], nbra + 1;
      } else {
        CloseSettled(before, open, nbra, n, lp);
        CloseWrites(before, open, nbra, total, n, lp);
        braelist := braelist[n := lp];
        open' := open[..|open| - 1];
      }
      ep := ep0 + 2;
    }

    /**
     * `_advance`: run the code at ep on the line at lp0. It succeeds exactly when Run does, leaving in
     * loc2 and the group lists exactly what Run finds; on failure it leaves loc2 alone and writes only
     * group entries that a later attempt writes again.
     */
    method Advance(line: seq<byte>, lp0: nat, code: seq<byte>, ep0: nat,
                   ghost prog: seq<Instr>, ghost open: seq<byte>, ghost nbra: nat)
      returns (ok: bool)
      requires Ready(prog, open, nbra, line, lp0, code, ep0)
      modifies this`loc2, this`braslist, this`braelist, this`low, this`size
      ensures Valid()
      ensures ok <==> Run(prog, line, lp0, locs, old(Spans())).Found?
      ensures ok ==> Run(prog, line, lp0, locs, old(Spans())) == Found(loc2, Spans())
      ensures !ok ==> loc2 == old(loc2) && Agree(old(Spans()), Spans(), open, nbra, nbra + Groups(prog))
      decreases |code| - ep0, 2
    {
      hide Run, Try, WellFormed, Settled, Encode, Agree, RunLength, Repeats, EncodeInstr;
      var lp: nat, ep: nat := lp0, ep0;
      ghost var p, op, nb := prog, open, nbra;
      ghost var before, total := Spans(), nbra + Groups(prog);
      AgreeSelf(before, open, nbra, total);
      while true
        invariant ep0 <= ep && nb >= nbra && nb + Groups(p) == total
        invariant Ready(p, op, nb, line, lp, code, ep)
        invariant Run(prog, line, lp0, locs, before) == Run(p, line, lp, locs, Spans())
        invariant loc2 == old(loc2) && Agree(before, Spans(), open, nbra, total)
        invariant forall n :: 0 <= n < nbra && n !in open ==> n !in op
        decreases |code| - ep
      {
        HeadTells(p, op, nb, code, ep);
        var opcode := code[ep];
        ghost var now := Spans();
        if opcode == CCEOF {
          EofRuns(p, op, nb, line, lp, locs, Spans());
          loc2 := lp;
          return true;
        } else if IsAtomOpcode(opcode - RNGE) {
          ok := Ranged(line, lp, code, ep, p, op, nb);
          if !ok {
            AgreeTrans(before, now, Spans(), open, nbra, op, nb, total);
          }
          return ok;
        } else if IsAtomOpcode(opcode - STAR) {
          ok := Starred(line, lp, code, ep, p, op, nb);
          if !ok {
            AgreeTrans(before, now, Spans(), open, nbra, op, nb, total);
          }
          return ok;
        } else if opcode == CBACK {
          ok, lp, ep := BackReference(line, lp, code, ep, p, op, nb);
        } else if opcode == CBRA || opcode == CKET {
          ghost var op0, nb0 := op, nb;
          ep, op, nb := Grouping(line, lp, code, ep, p, op, nb);
          ok := true;
          AgreeTrans(before, now, Spans(), open, nbra, op0, nb0, total);
        } else {
          ok, lp, ep := Single(line, lp, code, ep, p, op, nb);
        }
        if !ok {
          return false;
        }
        p := p[1..];
      }
    }
  }
}
