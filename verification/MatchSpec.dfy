/** What the backtracking matcher of regexp.c computes, and what its result depends on. */
module MatchSpec {
  import opened Options
  import opened Bytes
  import opened Program

  /** The start and the end of each group's latest span, as offsets into the line. */
  datatype SpanTable = SpanTable(starts: seq<nat>, ends: seq<nat>)
  type Spans = s: SpanTable | |s.starts| == NBRA && |s.ends| == NBRA
    witness SpanTable([0, 0, 0, 0, 0, 0, 0, 0, 0], [0, 0, 0, 0, 0, 0, 0, 0, 0])

  datatype Outcome = Fail | Found(end: nat, spans: Spans)

  // ----- what the matcher computes -----

  function MinCopies(q: Quant): nat {
    if q.Range? then q.lo else if q.Star? then 0 else 1
  }

  /** The most copies a quantifier takes; a starred atom takes all the text there is. */
  function MaxCopies(q: Quant, all: nat): nat
    requires ValidQuant(q)
  {
    match q
    case Once => 1
    case Star => all
    case Range(lo, hi) => if hi == OPEN_ENDED then lo + OPEN_ENDED_COPIES else hi
  }

  /** The number of consecutive characters from i on that a matches, counting at most max. */
  function RunLength(a: Atom, line: seq<byte>, i: nat, max: nat): (n: nat)
    requires i <= |line|
    ensures n <= max && i + n <= |line|
    ensures forall k :: i <= k < i + n ==> Has(a, line[k])
    ensures n < max && i + n < |line| ==> !Has(a, line[i + n])
    decreases max
  {
    if max > 0 && i < |line| && Has(a, line[i]) then 1 + RunLength(a, line, i + 1, max - 1) else 0
  }

  lemma RunLengthOnce(a: Atom, line: seq<byte>, i: nat, max: nat)
    requires i <= |line|
    ensures RunLength(a, line, i, max)
            == if max > 0 && i < |line| && Has(a, line[i]) then 1 + RunLength(a, line, i + 1, max - 1) else 0
  {
  }

  lemma {:induction false} RunLengthSplits(a: Atom, line: seq<byte>, i: nat, k: nat, max: nat)
    requires i <= |line| && k <= max
    ensures RunLength(a, line, i, k) == if RunLength(a, line, i, max) < k then RunLength(a, line, i, max) else k
    ensures RunLength(a, line, i, k) == k ==> RunLength(a, line, i, max) == k + RunLength(a, line, i + k, max - k)
    decreases k
  {
    hide RunLength;
    RunLengthOnce(a, line, i, k);
    RunLengthOnce(a, line, i, max);
    if k > 0 && i < |line| && Has(a, line[i]) {
      RunLengthSplits(a, line, i + 1, k - 1, max - 1);
    }
  }

  /** The first success in the order the matcher tries things, or Fail. */
  function Run(prog: seq<Instr>, line: seq<byte>, i: nat, locs: Option<nat>, spans: Spans): Outcome
    requires i <= |line|
    decreases |prog|, 0, 0
  {
    if prog == [] then Fail
    else
      var rest := prog[1..];
      match prog[0]
      case Eof => Found(i, spans)
      case Dol => if i == |line| then Run(rest, line, i, locs, spans) else Fail
      case Bra(n) => if n < NBRA then Run(rest, line, i, locs, OpenAt(spans, n, i)) else Fail
      case Ket(n) => if n < NBRA then Run(rest, line, i, locs, CloseAt(spans, n, i)) else Fail
      case Back(n) =>
        if Repeats(spans, n, line, i) then Run(rest, line, i + (spans.ends[n] - spans.starts[n]), locs, spans) else Fail
      case Item(a, q) =>
        if q.Once? then
          if i < |line| && Has(a, line[i]) then Run(rest, line, i + 1, locs, spans) else Fail
        else if ValidQuant(q) then
          var n := RunLength(a, line, i, MaxCopies(q, |line|));
          if n < MinCopies(q) then Fail else Try(rest, line, i + MinCopies(q), i + n, locs, spans)
        else Fail
  }

  /** Continue from the farthest of the positions lo..hi first; a repetition never ends at locs. */
  function Try(rest: seq<Instr>, line: seq<byte>, lo: nat, hi: nat, locs: Option<nat>, spans: Spans): Outcome
    requires lo <= hi <= |line|
    decreases |rest|, 1, hi - lo
  {
    if locs == Some(hi) then Fail
    else
      var r := Run(rest, line, hi, locs, spans);
      if r.Found? then r
      else if hi > lo then Try(rest, line, lo, hi - 1, locs, spans)
      else Fail
  }

  function OpenAt(spans: Spans, n: byte, i: nat): Spans
    requires n < NBRA
  {
    spans.(starts := spans.starts[n := i])
  }

  function CloseAt(spans: Spans, n: byte, i: nat): Spans
    requires n < NBRA
  {
    spans.(ends := spans.ends[n := i])
  }

  /** The text at i repeats the text of group n. */
  predicate Repeats(spans: Spans, n: byte, line: seq<byte>, i: nat)
    requires i <= |line|
  {
    n < NBRA && spans.starts[n] <= spans.ends[n] <= |line| &&
    line[spans.starts[n]..spans.ends[n]] <= line[i..]
  }

  // ----- spans left behind by failed attempts do not matter -----

  function Groups(prog: seq<Instr>): nat {
    if prog == [] then 0 else (if prog[0].Bra? then 1 else 0) + Groups(prog[1..])
  }

  /** s and t differ at most in the entries that instructions numbered nbra..total, or closing open groups, write. */
  ghost predicate Agree(s: Spans, t: Spans, open: seq<byte>, nbra: nat, total: nat) {
    && (forall n :: 0 <= n < NBRA && (n < nbra || n >= total) ==> s.starts[n] == t.starts[n])
    && (forall n :: 0 <= n < NBRA && ((n < nbra && n !in open) || n >= total) ==> s.ends[n] == t.ends[n])
  }

  /** Every group closed so far has a span ending at or before i, every open one starts there. */
  ghost predicate Settled(s: Spans, open: seq<byte>, nbra: nat, i: nat) {
    && nbra <= NBRA
    && (forall n :: 0 <= n < nbra ==> s.starts[n] <= i)
    && (forall n :: 0 <= n < nbra && n !in open ==> s.starts[n] <= s.ends[n] <= i)
    && (forall k :: 0 <= k < |open| ==> open[k] < nbra)
    && (forall j, k :: 0 <= j < k < |open| ==> open[j] != open[k])
  }

  lemma AgreeSelf(s: Spans, open: seq<byte>, nbra: nat, total: nat)
    ensures Agree(s, s, open, nbra, total)
  {
  }

  lemma AgreeTrans(s: Spans, t: Spans, u: Spans, open: seq<byte>, nbra: nat, open': seq<byte>, nbra': nat, total: nat)
    requires Agree(s, t, open, nbra, total) && Agree(t, u, open', nbra', total)
    requires nbra <= nbra' && forall n :: 0 <= n < nbra && n !in open ==> n !in open'
    ensures Agree(s, u, open, nbra, total)
  {
  }

  lemma SettledLater(s: Spans, open: seq<byte>, nbra: nat, i: nat, j: nat)
    requires Settled(s, open, nbra, i) && i <= j
    ensures Settled(s, open, nbra, j)
  {
  }

  lemma SettledAgree(s: Spans, t: Spans, open: seq<byte>, nbra: nat, i: nat, j: nat, total: nat)
    requires Settled(s, open, nbra, i) && i <= j && Agree(s, t, open, nbra, total)
    ensures Settled(t, open, nbra, j)
  {
  }

  // ----- one instruction at a time -----

  lemma NotEmpty(prog: seq<Instr>, open: seq<byte>, nbra: nat, t: Spans, i: nat)
    requires WellFormed(prog, open, nbra) && Settled(t, open, nbra, i)
    ensures prog != [] && (prog[0].Ket? ==> prog[0].n < NBRA)
  {
  }

  /** What a well-formed program says of what follows its first instruction. */
  lemma WellFormedParts(prog: seq<Instr>, open: seq<byte>, nbra: nat)
    requires WellFormed(prog, open, nbra)
    ensures prog[0].Eof? ==> open == [] && Groups(prog) == 0
    ensures prog[0].Dol? || prog[0].Item? ==> WellFormed(prog[1..], open, nbra) && Groups(prog) == Groups(prog[1..])
    ensures prog[0].Bra? ==>
              && prog[0].n == nbra < NBRA && WellFormed(prog[1..], open + [prog[0].n], nbra + 1)
              && Groups(prog) == 1 + Groups(prog[1..])
    ensures prog[0].Ket? ==>
              && open != [] && prog[0].n == open[|open| - 1] && WellFormed(prog[1..], open[..|open| - 1], nbra)
              && Groups(prog) == Groups(prog[1..])
    ensures prog[0].Back? ==>
              && prog[0].n < nbra && prog[0].n !in open && WellFormed(prog[1..], open, nbra)
              && Groups(prog) == Groups(prog[1..])
  {
    if prog[0].Eof? {
      assert Groups(prog[1..]) == 0;
    }
  }

  /** The parts of a well-formed program that starts in an atom. */
  lemma ItemParts(prog: seq<Instr>, open: seq<byte>, nbra: nat)
    requires WellFormed(prog, open, nbra) && prog[0].Item?
    ensures ValidAtom(prog[0].atom) && ValidQuant(prog[0].quant) && WellFormed(prog[1..], open, nbra)
    ensures Groups(prog) == Groups(prog[1..])
  {
  }

  lemma OpenSettled(t: Spans, open: seq<byte>, nbra: nat, n: byte, i: nat)
    requires n == nbra < NBRA && Settled(t, open, nbra, i)
    ensures Settled(OpenAt(t, n, i), open + [n], nbra + 1, i)
  {
  }

  lemma CloseSettled(t: Spans, open: seq<byte>, nbra: nat, n: byte, i: nat)
    requires open != [] && n == open[|open| - 1] && Settled(t, open, nbra, i)
    ensures n < NBRA && Settled(CloseAt(t, n, i), open[..|open| - 1], nbra, i)
  {
    assert forall k :: 0 <= k < |open| - 1 ==> open[..|open| - 1][k] == open[k];
    assert forall m :: 0 <= m < nbra && m !in open[..|open| - 1] ==> m == n || m !in open;
  }

  /** A program that starts in `$`, in one character or in a back-reference: where it goes on, if it does. */
  function Onward(x: Instr, line: seq<byte>, i: nat, spans: Spans): (j: Option<nat>)
    requires i <= |line|
    ensures j.Some? ==> i <= j.value <= |line|
  {
    match x
    case Dol => if i == |line| then Some(i) else None
    case Item(a, _) => if i < |line| && Has(a, line[i]) then Some(i + 1) else None
    case Back(n) => if Repeats(spans, n, line, i) then Some(i + (spans.ends[n] - spans.starts[n])) else None
    case _ => None
  }

  predicate Simple(x: Instr) {
    x.Dol? || x.Back? || (x.Item? && x.quant.Once?)
  }

  lemma SimpleRuns(prog: seq<Instr>, open: seq<byte>, nbra: nat, line: seq<byte>, i: nat, locs: Option<nat>,
                   spans: Spans)
    requires i <= |line| && WellFormed(prog, open, nbra) && Simple(prog[0])
    ensures WellFormed(prog[1..], open, nbra) && Groups(prog) == Groups(prog[1..])
    ensures (prog[0].Back? ==> prog[0].n < nbra && prog[0].n !in open)
    ensures var j := Onward(prog[0], line, i, spans);
            Run(prog, line, i, locs, spans) == if j.Some? then Run(prog[1..], line, j.value, locs, spans) else Fail
  {
    hide Repeats, RunLength, Try, Has, ValidAtom, ValidQuant;
  }

  lemma EofRuns(prog: seq<Instr>, open: seq<byte>, nbra: nat, line: seq<byte>, i: nat, locs: Option<nat>, spans: Spans)
    requires i <= |line| && WellFormed(prog, open, nbra) && prog[0].Eof?
    ensures Groups(prog) == 0 && open == [] && Run(prog, line, i, locs, spans) == Found(i, spans)
  {
    assert Groups(prog[1..]) == 0;
  }

  lemma GroupRuns(prog: seq<Instr>, open: seq<byte>, nbra: nat, line: seq<byte>, i: nat, locs: Option<nat>,
                  spans: Spans)
    requires i <= |line| && WellFormed(prog, open, nbra) && (prog[0].Bra? || prog[0].Ket?)
    requires (prog[0].Ket? ==> prog[0].n < NBRA)
    ensures prog[0].Bra? ==>
              && prog[0].n == nbra < NBRA && WellFormed(prog[1..], open + [prog[0].n], nbra + 1)
              && Groups(prog) == 1 + Groups(prog[1..])
              && Run(prog, line, i, locs, spans) == Run(prog[1..], line, i, locs, OpenAt(spans, prog[0].n, i))
    ensures prog[0].Ket? ==>
              && open != [] && prog[0].n == open[|open| - 1] && WellFormed(prog[1..], open[..|open| - 1], nbra)
              && Groups(prog) == Groups(prog[1..])
              && Run(prog, line, i, locs, spans) == Run(prog[1..], line, i, locs, CloseAt(spans, prog[0].n, i))
  {
  }

  // ----- stale entries -----

  /** A program that starts in a repetition tries the longest stretch first. */
  lemma RepetitionTries(prog: seq<Instr>, line: seq<byte>, i: nat, locs: Option<nat>, spans: Spans)
    requires i <= |line| && prog != [] && prog[0].Item? && !prog[0].quant.Once? && ValidQuant(prog[0].quant)
    ensures var q, n := prog[0].quant, RunLength(prog[0].atom, line, i, MaxCopies(prog[0].quant, |line|));
            i + n <= |line|
            && Run(prog, line, i, locs, spans)
               == if n < MinCopies(q) then Fail else Try(prog[1..], line, i + MinCopies(q), i + n, locs, spans)
  {
  }

  lemma AllAgree(s: Spans, t: Spans, nbra: nat)
    requires Agree(s, t, [], nbra, nbra)
    ensures s == t
  {
    assert forall n :: 0 <= n < NBRA ==> s.starts[n] == t.starts[n] && s.ends[n] == t.ends[n];
    assert s.starts == t.starts && s.ends == t.ends;
  }

  lemma OpenAgree(s: Spans, t: Spans, open: seq<byte>, nbra: nat, total: nat, n: byte, i: nat)
    requires Agree(s, t, open, nbra, total) && n == nbra < NBRA
    ensures Agree(OpenAt(s, n, i), OpenAt(t, n, i), open + [n], nbra + 1, total)
  {
  }

  lemma CloseAgree(s: Spans, t: Spans, open: seq<byte>, nbra: nat, total: nat, n: byte, i: nat)
    requires Agree(s, t, open, nbra, total) && open != [] && n == open[|open| - 1] && n < NBRA
    ensures Agree(CloseAt(s, n, i), CloseAt(t, n, i), open[..|open| - 1], nbra, total)
  {
    assert forall m :: 0 <= m < nbra && m !in open[..|open| - 1] ==> m == n || m !in open;
  }

  lemma OpenWrites(s: Spans, open: seq<byte>, nbra: nat, total: nat, n: byte, i: nat)
    requires n == nbra < NBRA && nbra < total
    ensures Agree(s, OpenAt(s, n, i), open, nbra, total)
  {
  }

  lemma CloseWrites(s: Spans, open: seq<byte>, nbra: nat, total: nat, n: byte, i: nat)
    requires open != [] && n == open[|open| - 1] && n < NBRA && Settled(s, open, nbra, i)
    ensures nbra <= total ==> Agree(s, CloseAt(s, n, i), open, nbra, total)
    ensures forall m :: 0 <= m < nbra && m !in open ==> m !in open[..|open| - 1]
  {
  }

  lemma OnwardAgree(x: Instr, line: seq<byte>, i: nat, s: Spans, t: Spans, open: seq<byte>, nbra: nat, total: nat)
    requires i <= |line| && Agree(s, t, open, nbra, total) && (x.Back? ==> x.n < nbra && x.n !in open)
    ensures Onward(x, line, i, s) == Onward(x, line, i, t)
  {
  }

  /** The matcher reads no group entry before writing it, so entries it will overwrite cannot change its result. */
  lemma {:induction false} StaleSpans(prog: seq<Instr>, open: seq<byte>, nbra: nat, line: seq<byte>, i: nat,
                                      locs: Option<nat>, s: Spans, t: Spans)
    requires i <= |line| && WellFormed(prog, open, nbra)
    requires Agree(s, t, open, nbra, nbra + Groups(prog))
    ensures Run(prog, line, i, locs, s) == Run(prog, line, i, locs, t)
    decreases |prog|, 1, 0
  {
    hide Run, Groups, Agree, Onward;
    var x, rest := prog[0], prog[1..];
    if x.Eof? {
      EofRuns(prog, open, nbra, line, i, locs, s);
      AllAgree(s, t, nbra);
    } else if Simple(x) {
      SimpleRuns(prog, open, nbra, line, i, locs, s);
      SimpleRuns(prog, open, nbra, line, i, locs, t);
      OnwardAgree(x, line, i, s, t, open, nbra, nbra + Groups(prog));
      var j := Onward(x, line, i, s);
      if j.Some? {
        StaleSpans(rest, open, nbra, line, j.value, locs, s, t);
      }
    } else if x.Item? {
      StaleSpansItem(prog, open, nbra, line, i, locs, s, t);
    } else {
      StaleSpansGroup(prog, open, nbra, line, i, locs, s, t);
    }
  }

  lemma {:induction false} StaleSpansItem(prog: seq<Instr>, open: seq<byte>, nbra: nat, line: seq<byte>, i: nat,
                                          locs: Option<nat>, s: Spans, t: Spans)
    requires i <= |line| && WellFormed(prog, open, nbra) && prog[0].Item? && !prog[0].quant.Once?
    requires Agree(s, t, open, nbra, nbra + Groups(prog))
    ensures Run(prog, line, i, locs, s) == Run(prog, line, i, locs, t)
    decreases |prog|, 0, 0
  {
    hide Run, Try, Groups, Agree, RunLength;
    ItemParts(prog, open, nbra);
    RepetitionTries(prog, line, i, locs, s);
    RepetitionTries(prog, line, i, locs, t);
    var q, n := prog[0].quant, RunLength(prog[0].atom, line, i, MaxCopies(prog[0].quant, |line|));
    if n >= MinCopies(q) {
      StaleSpansTry(prog[1..], open, nbra, line, i + MinCopies(q), i + n, locs, s, t);
    }
  }

  lemma {:induction false} StaleSpansGroup(prog: seq<Instr>, open: seq<byte>, nbra: nat, line: seq<byte>, i: nat,
                                           locs: Option<nat>, s: Spans, t: Spans)
    requires i <= |line| && WellFormed(prog, open, nbra) && (prog[0].Bra? || prog[0].Ket?)
    requires Agree(s, t, open, nbra, nbra + Groups(prog))
    ensures Run(prog, line, i, locs, s) == Run(prog, line, i, locs, t)
    decreases |prog|, 0, 0
  {
    var rest, n, total := prog[1..], prog[0].n, nbra + Groups(prog);
    if prog[0].Ket? && n >= NBRA {
      return;
    }
    GroupRuns(prog, open, nbra, line, i, locs, s);
    GroupRuns(prog, open, nbra, line, i, locs, t);
    if prog[0].Bra? {
      OpenAgree(s, t, open, nbra, total, n, i);
      StaleSpans(rest, open + [n], nbra + 1, line, i, locs, OpenAt(s, n, i), OpenAt(t, n, i));
    } else {
      CloseAgree(s, t, open, nbra, total, n, i);
      StaleSpans(rest, open[..|open| - 1], nbra, line, i, locs, CloseAt(s, n, i), CloseAt(t, n, i));
    }
  }

  lemma {:induction false} StaleSpansTry(rest: seq<Instr>, open: seq<byte>, nbra: nat, line: seq<byte>, lo: nat,
                                         hi: nat,
                                         locs: Option<nat>, s: Spans, t: Spans)
    requires lo <= hi <= |line| && WellFormed(rest, open, nbra)
    requires Agree(s, t, open, nbra, nbra + Groups(rest))
    ensures Try(rest, line, lo, hi, locs, s) == Try(rest, line, lo, hi, locs, t)
    decreases |rest|, 2, hi - lo
  {
    StaleSpans(rest, open, nbra, line, hi, locs, s, t);
    if hi > lo {
      StaleSpansTry(rest, open, nbra, line, lo, hi - 1, locs, s, t);
    }
  }
}
