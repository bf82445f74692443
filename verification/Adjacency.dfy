/** A match right behind another: what the rule that no repetition ends where the previous match ended costs. */
module Adjacency {
  import opened Options
  import opened Bytes
  import opened Program
  import opened MatchSpec
  import opened MatchFacts
  import opened Stepper
  import opened Substitution

  /** Of the positions hi, hi - 1, ... lo the first from which rest gets through; lo if there is none. */
  function TakenTo(rest: seq<Instr>, line: seq<byte>, lo: nat, hi: nat, spans: Spans): (k: nat)
    requires lo <= hi <= |line|
    ensures lo <= k <= hi
    decreases hi - lo
  {
    if lo == hi || Run(rest, line, hi, None, spans).Found? then hi else TakenTo(rest, line, lo, hi - 1, spans)
  }

  /** Does a repetition of the match that is preferred at i, were there no match before, end at position p? */
  predicate EndsAt(prog: seq<Instr>, line: seq<byte>, i: nat, spans: Spans, p: nat)
    requires i <= |line|
    decreases |prog|
  {
    prog != [] &&
    var rest := prog[1..];
    match prog[0]
    case Eof => false
    case Dol => EndsAt(rest, line, i, spans, p)
    case Bra(n) => n < NBRA && EndsAt(rest, line, i, OpenAt(spans, n, i), p)
    case Ket(n) => n < NBRA && EndsAt(rest, line, i, CloseAt(spans, n, i), p)
    case Back(n) => Repeats(spans, n, line, i) && EndsAt(rest, line, i + (spans.ends[n] - spans.starts[n]), spans, p)
    case Item(a, q) =>
      if q.Once? then i < |line| && EndsAt(rest, line, i + 1, spans, p)
      else
        ValidQuant(q) &&
        var n := RunLength(a, line, i, MaxCopies(q, |line|));
        n >= MinCopies(q) &&
        var k := TakenTo(rest, line, i + MinCopies(q), i + n, spans);
        k == p || EndsAt(rest, line, k, spans, p)
  }

  lemma RepeatsInside(spans: Spans, n: byte, line: seq<byte>, i: nat)
    requires i <= |line| && Repeats(spans, n, line, i)
    ensures n < NBRA && spans.starts[n] <= spans.ends[n] && i + (spans.ends[n] - spans.starts[n]) <= |line|
  {
  }

  lemma {:induction false} EndsLater(prog: seq<Instr>, line: seq<byte>, i: nat, spans: Spans, p: nat)
    requires p < i <= |line|
    ensures !EndsAt(prog, line, i, spans, p)
    decreases |prog|
  {
    hide TakenTo, RunLength, Repeats;
    if prog != [] {
      var rest := prog[1..];
      match prog[0]
      case Eof =>
      case Dol => EndsLater(rest, line, i, spans, p);
      case Bra(n) =>
        if n < NBRA {
          EndsLater(rest, line, i, OpenAt(spans, n, i), p);
        }
      case Ket(n) =>
        if n < NBRA {
          EndsLater(rest, line, i, CloseAt(spans, n, i), p);
        }
      case Back(n) =>
        if Repeats(spans, n, line, i) {
          RepeatsInside(spans, n, line, i);
          EndsLater(rest, line, i + (spans.ends[n] - spans.starts[n]), spans, p);
        }
      case Item(a, q) =>
        if q.Once? {
          if i < |line| {
            EndsLater(rest, line, i + 1, spans, p);
          }
        } else if ValidQuant(q) {
          var n := RunLength(a, line, i, MaxCopies(q, |line|));
          if n >= MinCopies(q) {
            EndsLater(rest, line, TakenTo(rest, line, i + MinCopies(q), i + n, spans), spans, p);
          }
        }
    }
  }

  /** With locs at p the matcher finds the same, or nothing when a repetition of what it would find ends at p. */
  lemma {:induction false} RunWithLocs(prog: seq<Instr>, line: seq<byte>, i: nat, spans: Spans, p: nat)
    requires p <= i <= |line|
    ensures Run(prog, line, i, Some(p), spans)
            == if EndsAt(prog, line, i, spans, p) then Fail else Run(prog, line, i, None, spans)
    decreases |prog|, 1, 0
  {
    if prog != [] {
      var rest := prog[1..];
      match prog[0]
      case Eof =>
      case Dol =>
        RunWithLocs(rest, line, i, spans, p);
      case Bra(n) =>
        if n < NBRA {
          RunWithLocs(rest, line, i, OpenAt(spans, n, i), p);
        }
      case Ket(n) =>
        if n < NBRA {
          RunWithLocs(rest, line, i, CloseAt(spans, n, i), p);
        }
      case Back(n) =>
        if Repeats(spans, n, line, i) {
          RunWithLocs(rest, line, i + (spans.ends[n] - spans.starts[n]), spans, p);
        }
      case Item(a, q) =>
        if q.Once? {
          if i < |line| {
            RunWithLocs(rest, line, i + 1, spans, p);
          }
        } else if ValidQuant(q) {
          RepetitionWithLocs(prog, line, i, spans, p);
        }
    }
  }

  lemma {:induction false} RepetitionWithLocs(prog: seq<Instr>, line: seq<byte>, i: nat, spans: Spans, p: nat)
    requires p <= i <= |line| && prog != [] && prog[0].Item? && !prog[0].quant.Once? && ValidQuant(prog[0].quant)
    ensures Run(prog, line, i, Some(p), spans)
            == if EndsAt(prog, line, i, spans, p) then Fail else Run(prog, line, i, None, spans)
    decreases |prog|, 0, 0
  {
    hide Try, RunLength, TakenTo;
    var a, q, rest := prog[0].atom, prog[0].quant, prog[1..];
    var n := RunLength(a, line, i, MaxCopies(q, |line|));
    if n >= MinCopies(q) {
      TryWithLocs(rest, line, i + MinCopies(q), i + n, spans, p);
    }
  }

  lemma {:induction false} TryWithLocs(rest: seq<Instr>, line: seq<byte>, lo: nat, hi: nat, spans: Spans, p: nat)
    requires p <= lo <= hi <= |line|
    ensures var k := TakenTo(rest, line, lo, hi, spans);
            Try(rest, line, lo, hi, Some(p), spans)
            == if k == p || EndsAt(rest, line, k, spans, p) then Fail else Try(rest, line, lo, hi, None, spans)
    decreases |rest|, 2, hi - lo
  {
    RunWithLocs(rest, line, hi, spans, p);
    if p < hi {
      EndsLater(rest, line, hi, spans, p);
    }
    if hi > lo {
      TryWithLocs(rest, line, lo, hi - 1, spans, p);
    }
  }

  // ----- what the search behind a match finds -----

  /** There is a match right behind the previous one, and a repetition of it ends where that one ended. */
  predicate Refused(e: Expr, line: seq<byte>, from: nat)
    requires from <= |line|
  {
    Run(e.prog, line, from, None, NO_SPANS).Found? && EndsAt(e.prog, line, from, NO_SPANS, from)
  }

  lemma {:induction false} LaterScans(prog: seq<Instr>, line: seq<byte>, i: nat, from: nat)
    requires from < i <= |line|
    ensures Scan(prog, line, i, Some(from), NO_SPANS) == Scan(prog, line, i, None, NO_SPANS)
    decreases |line| - i
  {
    RunWithLocs(prog, line, i, NO_SPANS, from);
    EndsLater(prog, line, i, NO_SPANS, from);
    if i < |line| {
      LaterScans(prog, line, i + 1, from);
    }
  }

  /**
   * The next match is the one a search from there on finds, exactly if the match right behind the previous one, when
   * there is one, has no repetition ending where that one ended. Otherwise the next match, if any, starts later.
   */
  lemma NextIsScan(e: Expr, line: seq<byte>, from: nat)
    requires from <= |line| && !e.circf
    ensures NextMatch(e, line, from) == Scan(e.prog, line, from, None, NO_SPANS) <==> !Refused(e, line, from)
    ensures Refused(e, line, from) ==>
              && Scan(e.prog, line, from, None, NO_SPANS).Match?
              && Scan(e.prog, line, from, None, NO_SPANS).start == from
              && (NextMatch(e, line, from).Match? ==> from < NextMatch(e, line, from).start)
  {
    hide Run, EndsAt;
    RunWithLocs(e.prog, line, from, NO_SPANS, from);
    if from < |line| {
      LaterScans(e.prog, line, from + 1, from);
    }
  }

  /** The first instruction to match a character takes at least one, or there is none, or `$` comes first. */
  predicate Eager(prog: seq<Instr>) {
    prog == [] ||
    match prog[0]
    case Eof => true
    case Dol => true
    case Item(_, q) => MinCopies(q) > 0
    case _ => Eager(prog[1..])
  }

  lemma {:induction false} EagerMoves(prog: seq<Instr>, line: seq<byte>, i: nat, spans: Spans)
    requires i < |line| && Eager(prog) && Run(prog, line, i, None, spans).Found?
    ensures !EndsAt(prog, line, i, spans, i)
    decreases |prog|
  {
    var rest := prog[1..];
    match prog[0]
    case Eof =>
    case Dol =>
    case Bra(n) => EagerMoves(rest, line, i, OpenAt(spans, n, i));
    case Ket(n) => EagerMoves(rest, line, i, CloseAt(spans, n, i));
    case Back(n) =>
      var j := i + (spans.ends[n] - spans.starts[n]);
      if j == i {
        EagerMoves(rest, line, i, spans);
      } else {
        EndsLater(rest, line, j, spans, i);
      }
    case Item(a, q) =>
      if q.Once? {
        EndsLater(rest, line, i + 1, spans, i);
      } else {
        var n := RunLength(a, line, i, MaxCopies(q, |line|));
        EndsLater(rest, line, TakenTo(rest, line, i + MinCopies(q), i + n, spans), spans, i);
      }
  }

  /** For such patterns no match is passed over, on any line. */
  lemma EagerIsScan(e: Expr, line: seq<byte>, from: nat)
    requires from < |line| && !e.circf && Eager(e.prog)
    ensures NextMatch(e, line, from) == Scan(e.prog, line, from, None, NO_SPANS)
  {
    if Refused(e, line, from) {
      EagerMoves(e.prog, line, from, NO_SPANS);
    }
    NextIsScan(e, line, from);
  }

  // ----- an example -----

  const DASH: byte := 45
  const A: byte := 97
  const B: byte := 98
  const C: byte := 99
  const X: byte := 120
  const ABC: seq<byte> := [A, B, C]

  /** `x*abc` */
  const XABC: Expr := Expr(false, [Item(Chr(X), Star), Item(Chr(A), Once), Item(Chr(B), Once), Item(Chr(C), Once), Eof])

  lemma RunsAbc(line: seq<byte>, i: nat)
    requires i + 3 <= |line| && line[i..i + 3] == ABC
    ensures Run(XABC.prog[1..], line, i, None, NO_SPANS) == Found(i + 3, NO_SPANS)
  {
    var p := XABC.prog;
    assert p[1..][1..] == p[2..] && p[2..][1..] == p[3..] && p[3..][1..] == p[4..];
    assert line[i] == ABC[0] && line[i + 1] == ABC[1] && line[i + 2] == ABC[2];
    assert Run(p[4..], line, i + 3, None, NO_SPANS) == Found(i + 3, NO_SPANS);
    assert Run(p[3..], line, i + 2, None, NO_SPANS) == Found(i + 3, NO_SPANS);
    assert Run(p[2..], line, i + 1, None, NO_SPANS) == Found(i + 3, NO_SPANS);
  }

  lemma MatchesAbc(line: seq<byte>, i: nat)
    requires i + 3 <= |line| && line[i..i + 3] == ABC
    ensures Run(XABC.prog, line, i, None, NO_SPANS) == Found(i + 3, NO_SPANS) && EndsAt(XABC.prog, line, i, NO_SPANS, i)
  {
    RunsAbc(line, i);
    assert line[i] == ABC[0] != X;
    assert RunLength(Chr(X), line, i, |line|) == 0;
  }

  /** A line without an a from i on has no match there. */
  lemma {:induction false} NoA(line: seq<byte>, i: nat, locs: Option<nat>)
    requires i <= |line| && forall k :: i <= k < |line| ==> line[k] != A
    ensures Scan(XABC.prog, line, i, locs, NO_SPANS).NoMatch?
    decreases |line| - i
  {
    var m := Scan(XABC.prog, line, i, locs, NO_SPANS);
    forall k: nat | i <= k <= |line|
      ensures Run(XABC.prog, line, k, locs, NO_SPANS).Fail?
    {
      NoARuns(line, k, locs);
    }
  }

  lemma NoARuns(line: seq<byte>, i: nat, locs: Option<nat>)
    requires i <= |line| && forall k :: i <= k < |line| ==> line[k] != A
    ensures Run(XABC.prog, line, i, locs, NO_SPANS).Fail?
  {
    var n := RunLength(Chr(X), line, i, |line|);
    TryFails(line, i, i + n, locs);
  }

  lemma {:induction false} TryFails(line: seq<byte>, lo: nat, hi: nat, locs: Option<nat>)
    requires lo <= hi <= |line| && forall k :: lo <= k < |line| ==> line[k] != A
    ensures Try(XABC.prog[1..], line, lo, hi, locs, NO_SPANS).Fail?
    decreases hi - lo
  {
    assert XABC.prog[1..][0] == Item(Chr(A), Once);
    assert Run(XABC.prog[1..], line, hi, locs, NO_SPANS).Fail?;
    if lo < hi {
      TryFails(line, lo, hi - 1, locs);
    }
  }

  /** `s/x*abc/-/g` on abcabc: the second abc is passed over, although it would be found by a search of its own. */
  lemma SecondIsPassedOver()
    ensures ValidExpr(XABC) && Consumes(XABC.prog) && ValidTemplate([DASH], Groups(XABC.prog))
    ensures Refused(XABC, ABC + ABC, 3) && Scan(XABC.prog, ABC + ABC, 3, None, NO_SPANS) == Match(3, 6, NO_SPANS)
    ensures NextMatch(XABC, ABC + ABC, 3).NoMatch?
    ensures Substituted(XABC, ABC + ABC, [DASH], GLOBAL) == [DASH] + ABC
  {
    var line := ABC + ABC;
    assert line[0..3] == ABC && line[3..6] == ABC;
    XabcValid();
    MatchesAbc(line, 0);
    MatchesAbc(line, 3);
    NextIsScan(XABC, line, 3);
    RunWithLocs(XABC.prog, line, 3, NO_SPANS, 3);
    NoA(line, 4, Some(3));
    assert FirstMatch(XABC, line) == Match(0, 3, NO_SPANS);
    OneReplaced(line);
  }

  lemma XabcValid()
    ensures ValidExpr(XABC) && Consumes(XABC.prog) && ValidTemplate([DASH], Groups(XABC.prog))
  {
    var p := XABC.prog;
    assert p[1..][1..] == p[2..] && p[2..][1..] == p[3..] && p[3..][1..] == p[4..] && p[4..][1..] == [];
    assert WellFormed(p[4..], [], 0) && WellFormed(p[3..], [], 0);
    assert WellFormed(p[2..], [], 0) && WellFormed(p[1..], [], 0);
    assert [DASH][1..] == [];
  }

  lemma OneReplaced(line: seq<byte>)
    requires line == ABC + ABC && ValidExpr(XABC) && Consumes(XABC.prog) && ValidTemplate([DASH], Groups(XABC.prog))
    requires FirstMatch(XABC, line) == Match(0, 3, NO_SPANS) && NextMatch(XABC, line, 3).NoMatch?
    ensures Substituted(XABC, line, [DASH], GLOBAL) == [DASH] + ABC
  {
    hide Scan, Stepper.Step, NextMatch, FirstMatch;
    var ms := Matches(XABC, line, GLOBAL);
    assert ms == [Match(0, 3, NO_SPANS)] && ms[1..] == [];
    MatchesOrdered(XABC, line, GLOBAL);
    assert [DASH][1..] == [];
    var m, groups := ms[0], Groups(XABC.prog);
    assert Expand([DASH], line, m, groups) == Head([DASH], line, m, groups) + Expand([DASH][1..], line, m, groups);
    assert Expand([DASH], line, m, groups) == [DASH];
    assert line[0..0] == [];
    assert Turn(line, 0, ms[0], [DASH], Groups(XABC.prog), GLOBAL, 1) == [DASH];
    assert Rebuild(line, 3, ms[1..], [DASH], Groups(XABC.prog), GLOBAL, 1) == line[3..] == ABC;
  }
}
