/** Facts about all matches: where the group spans lie, what a match depends on, and when it makes progress. */
module MatchFacts {
  import opened Options
  import opened Bytes
  import opened Program
  import opened MatchSpec
  import opened MatchTheory
  import opened Stepper

  // ----- a match lies inside the line, and its groups inside the match -----

  lemma {:induction false} ReachForward(prog: seq<Instr>, line: seq<byte>, i: nat, locs: Option<nat>, spans: Spans,
                                        end: nat, spans': Spans)
    requires i <= |line| && Reach(prog, line, i, locs, spans, end, spans')
    ensures i <= end <= |line|
    decreases |prog|
  {
    var rest := prog[1..];
    match prog[0]
    case Eof =>
    case Dol => ReachForward(rest, line, i, locs, spans, end, spans');
    case Bra(n) => ReachForward(rest, line, i, locs, OpenAt(spans, n, i), end, spans');
    case Ket(n) => ReachForward(rest, line, i, locs, CloseAt(spans, n, i), end, spans');
    case Back(n) => ReachForward(rest, line, i + (spans.ends[n] - spans.starts[n]), locs, spans, end, spans');
    case Item(a, q) =>
      var k := AfterItem(prog, line, i, locs, spans, end, spans');
      ReachForward(rest, line, k, locs, spans, end, spans');
  }

  /** The first total groups have spans inside [from, to]. */
  ghost predicate Inside(s: Spans, total: nat, from: nat, to: nat) {
    total <= NBRA && forall n :: 0 <= n < total ==> from <= s.starts[n] <= s.ends[n] <= to
  }

  lemma {:induction false} SpansInside(prog: seq<Instr>, open: seq<byte>, nbra: nat, line: seq<byte>, from: nat, i: nat,
                                       locs: Option<nat>, spans: Spans, end: nat, spans': Spans)
    requires i <= |line| && Reach(prog, line, i, locs, spans, end, spans')
    requires WellFormed(prog, open, nbra) && Settled(spans, open, nbra, i)
    requires forall n :: 0 <= n < nbra ==> from <= spans.starts[n]
    requires from <= i
    ensures Inside(spans', nbra + Groups(prog), from, end)
    decreases |prog|
  {
    hide Reach, WellFormed, Groups, Settled;
    NotEmpty(prog, open, nbra, spans, i);
    WellFormedParts(prog, open, nbra);
    ReachParts(prog, line, i, locs, spans, end, spans');
    var rest := prog[1..];
    match prog[0]
    case Eof =>
      EofInside(spans, open, nbra, from, i);
    case Dol => SpansInside(rest, open, nbra, line, from, i, locs, spans, end, spans');
    case Bra(n) =>
      OpenSettled(spans, open, nbra, n, i);
      SpansInside(rest, open + [n], nbra + 1, line, from, i, locs, OpenAt(spans, n, i), end, spans');
    case Ket(n) =>
      CloseSettled(spans, open, nbra, n, i);
      SpansInside(rest, open[..|open| - 1], nbra, line, from, i, locs, CloseAt(spans, n, i), end, spans');
    case Back(n) =>
      var j := i + (spans.ends[n] - spans.starts[n]);
      SettledLater(spans, open, nbra, i, j);
      SpansInside(rest, open, nbra, line, from, j, locs, spans, end, spans');
    case Item(a, q) =>
      var k := AfterItem(prog, line, i, locs, spans, end, spans');
      SettledLater(spans, open, nbra, i, k);
      SpansInside(rest, open, nbra, line, from, k, locs, spans, end, spans');
  }

  /** What a way through a program says of what follows its first instruction. */
  lemma ReachParts(prog: seq<Instr>, line: seq<byte>, i: nat, locs: Option<nat>, spans: Spans, end: nat, spans': Spans)
    requires i <= |line| && Reach(prog, line, i, locs, spans, end, spans')
    ensures prog[0].Eof? ==> end == i && spans' == spans
    ensures prog[0].Dol? ==> Reach(prog[1..], line, i, locs, spans, end, spans')
    ensures prog[0].Bra? ==>
              prog[0].n < NBRA && Reach(prog[1..], line, i, locs, OpenAt(spans, prog[0].n, i), end, spans')
    ensures prog[0].Ket? ==>
              prog[0].n < NBRA && Reach(prog[1..], line, i, locs, CloseAt(spans, prog[0].n, i), end, spans')
    ensures prog[0].Back? ==>
              Repeats(spans, prog[0].n, line, i)
              && Reach(prog[1..], line, i + (spans.ends[prog[0].n] - spans.starts[prog[0].n]), locs, spans, end, spans')
  {
  }

  lemma EofInside(s: Spans, open: seq<byte>, nbra: nat, from: nat, i: nat)
    requires Settled(s, open, nbra, i) && open == [] && forall n :: 0 <= n < nbra ==> from <= s.starts[n]
    ensures Inside(s, nbra, from, i)
  {
  }

  /** Where a way through a program stands after its first item. */
  lemma AfterItem(prog: seq<Instr>, line: seq<byte>, i: nat, locs: Option<nat>, spans: Spans, end: nat, spans': Spans)
    returns (k: nat)
    requires i <= |line| && prog != [] && prog[0].Item? && Reach(prog, line, i, locs, spans, end, spans')
    ensures i <= k <= |line| && Reach(prog[1..], line, k, locs, spans, end, spans')
    ensures locs == Some(i) ==> i < k
  {
    var a, q := prog[0].atom, prog[0].quant;
    if q.Once? {
      k := i + 1;
    } else {
      k :| Copies(a, q, line, i, k) && locs != Some(k) && Reach(prog[1..], line, k, locs, spans, end, spans');
    }
  }

  /** What `sed_step` reports: loc1 <= loc2 <= end of line, every group of the pattern inside [loc1, loc2]. */
  lemma MatchInside(circf: bool, prog: seq<Instr>, line: seq<byte>, i: nat, locs: Option<nat>, spans: Spans)
    requires i <= |line| && WellFormed(prog, [], 0) && (locs.Some? ==> locs.value <= i)
    ensures var m := Step(circf, prog, line, i, locs, spans);
            m.Match? ==> i <= m.start <= m.end <= |line| && Inside(m.spans, Groups(prog), m.start, m.end)
  {
    var m := Step(circf, prog, line, i, locs, spans);
    if m.Match? {
      RunFindsPreferred(prog, line, m.start, locs, spans);
      PreferredIsReach(prog, line, m.start, locs, spans, m.end, m.spans);
      ReachForward(prog, line, m.start, locs, spans, m.end, m.spans);
      SpansInside(prog, [], 0, line, m.start, m.start, locs, spans, m.end, m.spans);
    }
  }

  // ----- a match does not look back: only the text from its starting position on matters -----

  /** s is t moved d positions to the right, for the groups that have been opened and closed. */
  ghost predicate Shifted(s: Spans, t: Spans, d: nat, open: seq<byte>, nbra: nat) {
    && nbra <= NBRA
    && (forall n :: 0 <= n < nbra ==> s.starts[n] == t.starts[n] + d)
    && (forall n :: 0 <= n < nbra && n !in open ==> s.ends[n] == t.ends[n] + d)
  }

  function Later(locs: Option<nat>, d: nat): Option<nat> {
    if locs.Some? then Some(locs.value + d) else None
  }

  ghost predicate SameOutcome(r1: Outcome, r2: Outcome, d: nat, total: nat) {
    if r2.Found? then r1.Found? && r1.end == r2.end + d && Shifted(r1.spans, r2.spans, d, [], total) else r1.Fail?
  }

  lemma {:induction false} RunLengthShifted(a: Atom, x: seq<byte>, w: seq<byte>, i: nat, m1: nat, m2: nat)
    requires i <= |w| && (m1 == m2 || (m1 >= |w| - i && m2 >= |w| - i))
    ensures RunLength(a, x + w, |x| + i, m1) == RunLength(a, w, i, m2)
    decreases |w| - i
  {
    hide RunLength;
    var line, k := x + w, |x| + i;
    RunLengthOnce(a, line, k, m1);
    RunLengthOnce(a, w, i, m2);
    assert |line| == |x| + |w|;
    if i < |w| {
      assert line[k] == w[i];
      if m1 > 0 && Has(a, w[i]) {
        RunLengthShifted(a, x, w, i + 1, m1 - 1, m2 - 1);
        assert |x| + (i + 1) == k + 1;
      }
    }
  }

  lemma RepeatsShifted(n: byte, x: seq<byte>, w: seq<byte>, i: nat, s: Spans, t: Spans)
    requires i <= |w| && n < NBRA && t.starts[n] <= t.ends[n] <= |w|
    requires s.starts[n] == t.starts[n] + |x| && s.ends[n] == t.ends[n] + |x|
    ensures Repeats(s, n, x + w, |x| + i) <==> Repeats(t, n, w, i)
  {
    assert (x + w)[s.starts[n]..s.ends[n]] == w[t.starts[n]..t.ends[n]];
    assert (x + w)[|x| + i..] == w[i..];
  }

  lemma OnwardShifted(y: Instr, open: seq<byte>, nbra: nat, x: seq<byte>, w: seq<byte>, i: nat, s: Spans, t: Spans)
    requires i <= |w| && Settled(t, open, nbra, i) && Shifted(s, t, |x|, open, nbra) && Simple(y)
    requires y.Back? ==> y.n < nbra && y.n !in open
    ensures Onward(y, x + w, |x| + i, s) == Later(Onward(y, w, i, t), |x|)
  {
    if y.Back? {
      RepeatsShifted(y.n, x, w, i, s, t);
    } else if i < |w| {
      assert (x + w)[|x| + i] == w[i];
    }
  }

  lemma {:induction false} RunShifted(prog: seq<Instr>, open: seq<byte>, nbra: nat, x: seq<byte>, w: seq<byte>, i: nat,
                                      locs: Option<nat>, s: Spans, t: Spans)
    requires i <= |w| && WellFormed(prog, open, nbra) && Settled(t, open, nbra, i) && Shifted(s, t, |x|, open, nbra)
    ensures var r1, r2 := Run(prog, x + w, |x| + i, Later(locs, |x|), s), Run(prog, w, i, locs, t);
            SameOutcome(r1, r2, |x|, nbra + Groups(prog))
    decreases |prog|, 1, 0
  {
    hide Run, WellFormed, Groups, Settled, Shifted, Onward;
    NotEmpty(prog, open, nbra, t, i);
    var d := |x|;
    if prog[0].Eof? {
      EofRuns(prog, open, nbra, x + w, d + i, Later(locs, d), s);
      EofRuns(prog, open, nbra, w, i, locs, t);
    } else if Simple(prog[0]) {
      SimpleRuns(prog, open, nbra, x + w, d + i, Later(locs, d), s);
      SimpleRuns(prog, open, nbra, w, i, locs, t);
      OnwardShifted(prog[0], open, nbra, x, w, i, s, t);
      var j := Onward(prog[0], w, i, t);
      if j.Some? {
        SettledLater(t, open, nbra, i, j.value);
        RunShifted(prog[1..], open, nbra, x, w, j.value, locs, s, t);
        assert j.value + d == d + j.value;
      }
    } else if prog[0].Item? {
      RepetitionShifted(prog, open, nbra, x, w, i, locs, s, t);
    } else {
      GroupShifted(prog, open, nbra, x, w, i, locs, s, t);
    }
  }

  /** Opening a group, on both lines. */
  lemma OpenShifted(s: Spans, t: Spans, d: nat, open: seq<byte>, nbra: nat, n: byte, i: nat)
    requires n == nbra < NBRA && Settled(t, open, nbra, i) && Shifted(s, t, d, open, nbra)
    ensures Settled(OpenAt(t, n, i), open + [n], nbra + 1, i)
    ensures Shifted(OpenAt(s, n, d + i), OpenAt(t, n, i), d, open + [n], nbra + 1)
  {
    OpenSettled(t, open, nbra, n, i);
  }

  /** Closing the innermost group, on both lines. */
  lemma CloseShifted(s: Spans, t: Spans, d: nat, open: seq<byte>, nbra: nat, n: byte, i: nat)
    requires open != [] && n == open[|open| - 1] && Settled(t, open, nbra, i) && Shifted(s, t, d, open, nbra)
    ensures n < NBRA && Settled(CloseAt(t, n, i), open[..|open| - 1], nbra, i)
    ensures Shifted(CloseAt(s, n, d + i), CloseAt(t, n, i), d, open[..|open| - 1], nbra)
  {
    CloseSettled(t, open, nbra, n, i);
    assert forall m :: 0 <= m < nbra && m !in open[..|open| - 1] ==> m == n || m !in open;
  }

  lemma {:induction false} GroupShifted(prog: seq<Instr>, open: seq<byte>, nbra: nat, x: seq<byte>, w: seq<byte>,
                                        i: nat,
                                        locs: Option<nat>, s: Spans, t: Spans)
    requires i <= |w| && WellFormed(prog, open, nbra) && Settled(t, open, nbra, i) && Shifted(s, t, |x|, open, nbra)
    requires prog != [] && (prog[0].Bra? || (prog[0].Ket? && prog[0].n < NBRA))
    ensures var r1, r2 := Run(prog, x + w, |x| + i, Later(locs, |x|), s), Run(prog, w, i, locs, t);
            SameOutcome(r1, r2, |x|, nbra + Groups(prog))
    decreases |prog|, 0, 0
  {
    hide Run, WellFormed, Groups, Settled, Shifted, OpenAt, CloseAt, SameOutcome;
    var rest, d, n := prog[1..], |x|, prog[0].n;
    GroupRuns(prog, open, nbra, x + w, |x| + i, Later(locs, |x|), s);
    GroupRuns(prog, open, nbra, w, i, locs, t);
    if prog[0].Bra? {
      OpenShifted(s, t, d, open, nbra, n, i);
      RunShifted(rest, open + [n], nbra + 1, x, w, i, locs, OpenAt(s, n, d + i), OpenAt(t, n, i));
    } else {
      CloseShifted(s, t, d, open, nbra, n, i);
      RunShifted(rest, open[..|open| - 1], nbra, x, w, i, locs, CloseAt(s, n, d + i), CloseAt(t, n, i));
    }
  }

  lemma {:induction false} RepetitionShifted(prog: seq<Instr>, open: seq<byte>, nbra: nat, x: seq<byte>, w: seq<byte>,
                                             i: nat,
                                             locs: Option<nat>, s: Spans, t: Spans)
    requires i <= |w| && WellFormed(prog, open, nbra) && Settled(t, open, nbra, i) && Shifted(s, t, |x|, open, nbra)
    requires prog != [] && prog[0].Item? && !prog[0].quant.Once?
    ensures var r1, r2 := Run(prog, x + w, |x| + i, Later(locs, |x|), s), Run(prog, w, i, locs, t);
            SameOutcome(r1, r2, |x|, nbra + Groups(prog))
    decreases |prog|, 0, 0
  {
    hide Run, Try, RunLength, WellFormed, Groups, Settled, Shifted, Copies;
    ItemParts(prog, open, nbra);
    var rest, a, q, line, d := prog[1..], prog[0].atom, prog[0].quant, x + w, |x|;
    RepetitionRuns(prog, line, d + i, Later(locs, d), s);
    RepetitionRuns(prog, w, i, locs, t);
    RunLengthShifted(a, x, w, i, MaxCopies(q, |line|), MaxCopies(q, |w|));
    var n := RunLength(a, w, i, MaxCopies(q, |w|));
    if n >= MinCopies(q) {
      SettledLater(t, open, nbra, i, i + MinCopies(q));
      TryShifted(rest, open, nbra, x, w, i + MinCopies(q), i + n, locs, s, t);
      assert d + i + MinCopies(q) == d + (i + MinCopies(q)) && d + i + n == d + (i + n);
    }
  }

  lemma {:induction false} TryShifted(rest: seq<Instr>, open: seq<byte>, nbra: nat, x: seq<byte>, w: seq<byte>,
                                      lo: nat, hi: nat,
                                      locs: Option<nat>, s: Spans, t: Spans)
    requires lo <= hi <= |w| && WellFormed(rest, open, nbra) && Settled(t, open, nbra, lo)
    requires Shifted(s, t, |x|, open, nbra)
    ensures var r1, r2 := Try(rest, x + w, |x| + lo, |x| + hi, Later(locs, |x|), s), Try(rest, w, lo, hi, locs, t);
            SameOutcome(r1, r2, |x|, nbra + Groups(rest))
    decreases |rest|, 2, hi - lo
  {
    SettledLater(t, open, nbra, lo, hi);
    RunShifted(rest, open, nbra, x, w, hi, locs, s, t);
    if hi > lo {
      TryShifted(rest, open, nbra, x, w, lo, hi - 1, locs, s, t);
    }
  }

  lemma EmptySettled(t: Spans, i: nat)
    ensures Settled(t, [], 0, i)
  {
  }

  /** The leftmost match from a position depends only on the text from that position on. */
  lemma {:induction false} ScanShifted(prog: seq<Instr>, x: seq<byte>, w: seq<byte>, i: nat, locs: Option<nat>,
                                       s: Spans, t: Spans)
    requires i <= |w| && WellFormed(prog, [], 0)
    ensures var m1, m2 := Scan(prog, x + w, |x| + i, Later(locs, |x|), s), Scan(prog, w, i, locs, t);
            if m2.Match? then
              && m1.Match? && m1.start == m2.start + |x| && m1.end == m2.end + |x|
              && Shifted(m1.spans, m2.spans, |x|, [], Groups(prog))
            else m1.NoMatch?
    decreases |w| - i
  {
    hide Run, Try, WellFormed, Groups, Settled;
    EmptySettled(t, i);
    RunShifted(prog, [], 0, x, w, i, locs, s, t);
    if i < |w| {
      ScanShifted(prog, x, w, i + 1, locs, s, t);
    }
  }

  // ----- progress -----

  /** Some instruction matches a character or asks for the end of the line. */
  predicate Consumes(prog: seq<Instr>) {
    prog != [] && !prog[0].Eof? && (prog[0].Item? || prog[0].Dol? || Consumes(prog[1..]))
  }

  /** Before the end of the line, a match starting where locs points is not empty. */
  lemma {:induction false} Progress(prog: seq<Instr>, line: seq<byte>, i: nat, spans: Spans, end: nat, spans': Spans)
    requires i < |line| && Consumes(prog) && Reach(prog, line, i, Some(i), spans, end, spans')
    ensures i < end
    decreases |prog|
  {
    var rest, locs := prog[1..], Some(i);
    match prog[0]
    case Dol =>
    case Bra(n) => Progress(rest, line, i, OpenAt(spans, n, i), end, spans');
    case Ket(n) => Progress(rest, line, i, CloseAt(spans, n, i), end, spans');
    case Back(n) =>
      var j := i + (spans.ends[n] - spans.starts[n]);
      if j == i {
        Progress(rest, line, i, spans, end, spans');
      } else {
        ReachForward(rest, line, j, locs, spans, end, spans');
      }
    case Item(a, q) =>
      var k := AfterItem(prog, line, i, locs, spans, end, spans');
      ReachForward(rest, line, k, locs, spans, end, spans');
  }

  /** A program of groups and back-references alone matches the empty text wherever it is tried. */
  lemma {:induction false} Stalls(prog: seq<Instr>, open: seq<byte>, nbra: nat, line: seq<byte>, i: nat,
                                  locs: Option<nat>, spans: Spans)
    requires i <= |line| && WellFormed(prog, open, nbra) && !Consumes(prog) && Settled(spans, open, nbra, i)
    requires forall n :: 0 <= n < nbra ==> spans.starts[n] == i
    ensures Run(prog, line, i, locs, spans).Found? && Run(prog, line, i, locs, spans).end == i
    decreases |prog|
  {
    hide Run, WellFormed, Groups, Settled, Onward;
    NotEmpty(prog, open, nbra, spans, i);
    var rest := prog[1..];
    match prog[0]
    case Eof => EofRuns(prog, open, nbra, line, i, locs, spans);
    case Bra(n) =>
      GroupRuns(prog, open, nbra, line, i, locs, spans);
      OpenSettled(spans, open, nbra, n, i);
      Stalls(rest, open + [n], nbra + 1, line, i, locs, OpenAt(spans, n, i));
    case Ket(n) =>
      GroupRuns(prog, open, nbra, line, i, locs, spans);
      CloseSettled(spans, open, nbra, n, i);
      Stalls(rest, open[..|open| - 1], nbra, line, i, locs, CloseAt(spans, n, i));
    case Back(n) =>
      SimpleRuns(prog, open, nbra, line, i, locs, spans);
      EmptyRepeats(n, open, nbra, line, i, spans);
      Stalls(rest, open, nbra, line, i, locs, spans);
  }

  lemma EmptyRepeats(n: byte, open: seq<byte>, nbra: nat, line: seq<byte>, i: nat, spans: Spans)
    requires i <= |line| && Settled(spans, open, nbra, i) && n < nbra && n !in open && spans.starts[n] == i
    ensures Onward(Instr.Back(n), line, i, spans) == Some(i)
  {
    assert line[spans.starts[n]..spans.ends[n]] == [];
  }
}
