/** What a successful match means, independently of how the matcher searches for it. */
module MatchTheory {
  import opened Options
  import opened Bytes
  import opened Program
  import opened MatchSpec

  // ----- the declarative reading of a program -----

  /** line[i..k] is a permitted number of copies of characters of a. */
  ghost predicate Copies(a: Atom, q: Quant, line: seq<byte>, i: nat, k: nat)
    requires ValidQuant(q)
  {
    i <= k <= |line| && MinCopies(q) <= k - i <= MaxCopies(q, |line|) && forall j :: i <= j < k ==> Has(a, line[j])
  }

  /** Some way of reading line[i..end] through the program leaves the group spans as in spans'. */
  ghost predicate Reach(prog: seq<Instr>, line: seq<byte>, i: nat, locs: Option<nat>, spans: Spans, end: nat,
                        spans': Spans)
    requires i <= |line|
    decreases |prog|
  {
    prog != [] &&
    var rest := prog[1..];
    match prog[0]
    case Eof => end == i && spans' == spans
    case Dol => i == |line| && Reach(rest, line, i, locs, spans, end, spans')
    case Bra(n) => n < NBRA && Reach(rest, line, i, locs, OpenAt(spans, n, i), end, spans')
    case Ket(n) => n < NBRA && Reach(rest, line, i, locs, CloseAt(spans, n, i), end, spans')
    case Back(n) =>
      Repeats(spans, n, line, i) && Reach(rest, line, i + (spans.ends[n] - spans.starts[n]), locs, spans, end, spans')
    case Item(a, q) =>
      if q.Once? then i < |line| && Has(a, line[i]) && Reach(rest, line, i + 1, locs, spans, end, spans')
      else
        && ValidQuant(q)
        && exists k: nat ::
             Copies(a, q, line, i, k) && locs != Some(k) && Reach(rest, line, k, locs, spans, end, spans')
  }

  ghost predicate Reachable(prog: seq<Instr>, line: seq<byte>, i: nat, locs: Option<nat>, spans: Spans)
    requires i <= |line|
  {
    exists end: nat, spans': Spans :: Reach(prog, line, i, locs, spans, end, spans')
  }

  /** As Reach, and every repetition takes as many copies as leave the rest of the program a way through. */
  ghost predicate Preferred(prog: seq<Instr>, line: seq<byte>, i: nat, locs: Option<nat>, spans: Spans, end: nat,
                            spans': Spans)
    requires i <= |line|
    decreases |prog|
  {
    prog != [] &&
    var rest := prog[1..];
    match prog[0]
    case Eof => end == i && spans' == spans
    case Dol => i == |line| && Preferred(rest, line, i, locs, spans, end, spans')
    case Bra(n) => n < NBRA && Preferred(rest, line, i, locs, OpenAt(spans, n, i), end, spans')
    case Ket(n) => n < NBRA && Preferred(rest, line, i, locs, CloseAt(spans, n, i), end, spans')
    case Back(n) =>
      && Repeats(spans, n, line, i)
      && Preferred(rest, line, i + (spans.ends[n] - spans.starts[n]), locs, spans, end, spans')
    case Item(a, q) =>
      if q.Once? then i < |line| && Has(a, line[i]) && Preferred(rest, line, i + 1, locs, spans, end, spans')
      else ValidQuant(q) && exists k: nat ::
        && Copies(a, q, line, i, k) && locs != Some(k)
        && Preferred(rest, line, k, locs, spans, end, spans') && MostCopies(rest, a, q, line, i, locs, spans, k)
  }

  /** No more than k - i copies of a would let the rest of the program through. */
  ghost predicate MostCopies(rest: seq<Instr>, a: Atom, q: Quant, line: seq<byte>, i: nat, locs: Option<nat>,
                             spans: Spans, k: nat)
    requires ValidQuant(q)
    decreases |rest|
  {
    forall j: nat :: k < j && Copies(a, q, line, i, j) && locs != Some(j) ==> !Reachable(rest, line, j, locs, spans)
  }

  // ----- the matcher finds the preferred match, and fails only when there is none -----

  lemma {:induction false} CopiesAreRuns(a: Atom, q: Quant, line: seq<byte>, i: nat, k: nat)
    requires i <= |line| && ValidQuant(q)
    ensures Copies(a, q, line, i, k) <==> i + MinCopies(q) <= k <= i + RunLength(a, line, i, MaxCopies(q, |line|))
  {
    var n := RunLength(a, line, i, MaxCopies(q, |line|));
    assert n < MaxCopies(q, |line|) && i + n < |line| ==> !Has(a, line[i + n]);
  }

  lemma {:induction false} RunFindsPreferred(prog: seq<Instr>, line: seq<byte>, i: nat, locs: Option<nat>, spans: Spans)
    requires i <= |line| && (locs.Some? ==> locs.value <= i)
    ensures var r := Run(prog, line, i, locs, spans);
            if r.Found? then Preferred(prog, line, i, locs, spans, r.end, r.spans)
            else !Reachable(prog, line, i, locs, spans)
    decreases |prog|, 1, 0
  {
    if prog != [] {
      var rest := prog[1..];
      match prog[0]
      case Eof =>
      case Dol =>
        if i == |line| {
          RunFindsPreferred(rest, line, i, locs, spans);
          Unfold(prog, line, i, locs, spans, i, spans);
        }
      case Bra(n) =>
        if n < NBRA {
          RunFindsPreferred(rest, line, i, locs, OpenAt(spans, n, i));
          Unfold(prog, line, i, locs, spans, i, OpenAt(spans, n, i));
        }
      case Ket(n) =>
        if n < NBRA {
          RunFindsPreferred(rest, line, i, locs, CloseAt(spans, n, i));
          Unfold(prog, line, i, locs, spans, i, CloseAt(spans, n, i));
        }
      case Back(n) =>
        if Repeats(spans, n, line, i) {
          var j := i + (spans.ends[n] - spans.starts[n]);
          RunFindsPreferred(rest, line, j, locs, spans);
          Unfold(prog, line, i, locs, spans, j, spans);
        }
      case Item(a, q) =>
        if q.Once? {
          if i < |line| && Has(a, line[i]) {
            RunFindsPreferred(rest, line, i + 1, locs, spans);
            Unfold(prog, line, i, locs, spans, i + 1, spans);
          }
        } else if ValidQuant(q) {
          RepetitionFindsPreferred(prog, line, i, locs, spans);
        }
    }
  }

  /** A program whose first instruction leads in one way only is reachable exactly when what follows is. */
  lemma Unfold(prog: seq<Instr>, line: seq<byte>, i: nat, locs: Option<nat>, spans: Spans, j: nat, after: Spans)
    requires i <= |line| && j <= |line| && prog != [] && !prog[0].Eof? && (prog[0].Item? ==> prog[0].quant.Once?)
    requires forall end: nat, s: Spans ::
               Reach(prog, line, i, locs, spans, end, s) <==> Reach(prog[1..], line, j, locs, after, end, s)
    ensures Reachable(prog, line, i, locs, spans) <==> Reachable(prog[1..], line, j, locs, after)
  {
    if Reachable(prog, line, i, locs, spans) {
      var end: nat, s: Spans :| Reach(prog, line, i, locs, spans, end, s);
    }
    if Reachable(prog[1..], line, j, locs, after) {
      var end: nat, s: Spans :| Reach(prog[1..], line, j, locs, after, end, s);
      assert Reach(prog, line, i, locs, spans, end, s);
    }
  }

  /** A repetition at the start of a program. */
  ghost predicate Repeating(prog: seq<Instr>, i: nat, line: seq<byte>) {
    i <= |line| && prog != [] && prog[0].Item? && !prog[0].quant.Once? && ValidQuant(prog[0].quant)
  }

  lemma RepetitionUnreachable(prog: seq<Instr>, line: seq<byte>, i: nat, locs: Option<nat>, spans: Spans)
    requires Repeating(prog, i, line)
    requires forall k: nat :: Copies(prog[0].atom, prog[0].quant, line, i, k) && locs != Some(k) ==>
               !Reachable(prog[1..], line, k, locs, spans)
    ensures !Reachable(prog, line, i, locs, spans)
  {
    forall end: nat, s: Spans
      ensures !Reach(prog, line, i, locs, spans, end, s)
    {
      forall k: nat | Copies(prog[0].atom, prog[0].quant, line, i, k) && locs != Some(k)
        ensures !Reach(prog[1..], line, k, locs, spans, end, s)
      {
        assert !Reachable(prog[1..], line, k, locs, spans);
      }
    }
  }

  lemma RepetitionPreferred(prog: seq<Instr>, line: seq<byte>, i: nat, locs: Option<nat>, spans: Spans, k: nat,
                            end: nat, s: Spans)
    requires Repeating(prog, i, line)
    requires var a, q, rest := prog[0].atom, prog[0].quant, prog[1..];
             && Copies(a, q, line, i, k) && locs != Some(k)
             && Preferred(rest, line, k, locs, spans, end, s) && MostCopies(rest, a, q, line, i, locs, spans, k)
    ensures Preferred(prog, line, i, locs, spans, end, s)
  {
  }

  lemma RepetitionRuns(prog: seq<Instr>, line: seq<byte>, i: nat, locs: Option<nat>, spans: Spans)
    requires Repeating(prog, i, line)
    ensures var a, q, rest := prog[0].atom, prog[0].quant, prog[1..];
            var n := RunLength(a, line, i, MaxCopies(q, |line|));
            && i + n <= |line|
            && (forall k: nat :: Copies(a, q, line, i, k) <==> i + MinCopies(q) <= k <= i + n)
            && Run(prog, line, i, locs, spans)
               == if n < MinCopies(q) then Fail else Try(rest, line, i + MinCopies(q), i + n, locs, spans)
  {
    RepetitionTries(prog, line, i, locs, spans);
    var a, q := prog[0].atom, prog[0].quant;
    var n := RunLength(a, line, i, MaxCopies(q, |line|));
    forall k: nat
      ensures Copies(a, q, line, i, k) <==> i + MinCopies(q) <= k <= i + n
    {
      CopiesAreRuns(a, q, line, i, k);
    }
  }

  lemma {:induction false} RepetitionFindsPreferred(prog: seq<Instr>, line: seq<byte>, i: nat, locs: Option<nat>,
                                                    spans: Spans)
    requires Repeating(prog, i, line) && (locs.Some? ==> locs.value <= i)
    ensures var r := Run(prog, line, i, locs, spans);
            if r.Found? then Preferred(prog, line, i, locs, spans, r.end, r.spans)
            else !Reachable(prog, line, i, locs, spans)
    decreases |prog|, 0, 0
  {
    hide Run, Try, RunLength, Reach, Reachable, Preferred, Copies;
    var a, q, rest := prog[0].atom, prog[0].quant, prog[1..];
    var n := RunLength(a, line, i, MaxCopies(q, |line|));
    RepetitionRuns(prog, line, i, locs, spans);
    var r := Run(prog, line, i, locs, spans);
    if n >= MinCopies(q) {
      var k := TryFindsPreferred(rest, line, i + MinCopies(q), i + n, locs, spans);
      if r.Found? {
        assert MostCopies(rest, a, q, line, i, locs, spans, k);
        RepetitionPreferred(prog, line, i, locs, spans, k, r.end, r.spans);
      }
    }
    if r.Fail? {
      RepetitionUnreachable(prog, line, i, locs, spans);
    }
  }

  /** k is the farthest of the positions lo..hi from which rest gets through, and r what happens there. */
  ghost predicate Farthest(rest: seq<Instr>, line: seq<byte>, lo: nat, hi: nat, locs: Option<nat>, spans: Spans,
                           r: Outcome, k: nat)
    requires hi <= |line|
  {
    && lo <= k <= hi && locs != Some(k) && r.Found? && Preferred(rest, line, k, locs, spans, r.end, r.spans)
    && NoneBeyond(rest, line, k + 1, hi, locs, spans)
  }

  ghost predicate NoneBeyond(rest: seq<Instr>, line: seq<byte>, lo: nat, hi: nat, locs: Option<nat>, spans: Spans)
    requires hi <= |line|
  {
    forall j: nat :: lo <= j <= hi && locs != Some(j) ==> !Reachable(rest, line, j, locs, spans)
  }

  lemma {:induction false} TryFindsPreferred(rest: seq<Instr>, line: seq<byte>, lo: nat, hi: nat, locs: Option<nat>,
                                             spans: Spans)
    returns (k: nat)
    requires lo <= hi <= |line| && (locs.Some? ==> locs.value <= lo)
    ensures var r := Try(rest, line, lo, hi, locs, spans);
            if r.Found? then Farthest(rest, line, lo, hi, locs, spans, r, k)
            else NoneBeyond(rest, line, lo, hi, locs, spans)
    decreases |rest|, 2, hi - lo
  {
    hide Preferred, Reachable, Reach, Run, MostCopies;
    RunFindsPreferred(rest, line, hi, locs, spans);
    k := hi;
    if locs != Some(hi) && Run(rest, line, hi, locs, spans).Fail? && hi > lo {
      k := TryFindsPreferred(rest, line, lo, hi - 1, locs, spans);
    }
  }

  lemma {:induction false} PreferredIsReach(prog: seq<Instr>, line: seq<byte>, i: nat, locs: Option<nat>, spans: Spans,
                                            end: nat, spans': Spans)
    requires i <= |line| && Preferred(prog, line, i, locs, spans, end, spans')
    ensures Reach(prog, line, i, locs, spans, end, spans')
    decreases |prog|
  {
    var rest := prog[1..];
    match prog[0]
    case Eof =>
    case Dol => PreferredIsReach(rest, line, i, locs, spans, end, spans');
    case Bra(n) => PreferredIsReach(rest, line, i, locs, OpenAt(spans, n, i), end, spans');
    case Ket(n) => PreferredIsReach(rest, line, i, locs, CloseAt(spans, n, i), end, spans');
    case Back(n) => PreferredIsReach(rest, line, i + (spans.ends[n] - spans.starts[n]), locs, spans, end, spans');
    case Item(a, q) =>
      if q.Once? {
        PreferredIsReach(rest, line, i + 1, locs, spans, end, spans');
      } else {
        var k: nat :| Copies(a, q, line, i, k) && locs != Some(k) && Preferred(rest, line, k, locs, spans, end, spans')
                 && MostCopies(rest, a, q, line, i, locs, spans, k);
        PreferredIsReach(rest, line, k, locs, spans, end, spans');
      }
  }

  /** How far the repetition at the start of a program goes in a preferred match. */
  lemma PreferredCopies(prog: seq<Instr>, line: seq<byte>, i: nat, locs: Option<nat>, spans: Spans, end: nat, s: Spans)
    returns (k: nat)
    requires Repeating(prog, i, line) && Preferred(prog, line, i, locs, spans, end, s)
    ensures var a, q, rest := prog[0].atom, prog[0].quant, prog[1..];
            && Copies(a, q, line, i, k) && locs != Some(k) && Preferred(rest, line, k, locs, spans, end, s)
            && MostCopies(rest, a, q, line, i, locs, spans, k) && Reachable(rest, line, k, locs, spans)
  {
    var a, q, rest := prog[0].atom, prog[0].quant, prog[1..];
    k :| Copies(a, q, line, i, k) && locs != Some(k) && Preferred(rest, line, k, locs, spans, end, s)
         && MostCopies(rest, a, q, line, i, locs, spans, k);
    PreferredIsReach(rest, line, k, locs, spans, end, s);
  }

  lemma SameCopies(rest: seq<Instr>, a: Atom, q: Quant, line: seq<byte>, i: nat, locs: Option<nat>, spans: Spans,
                   k1: nat, k2: nat)
    requires ValidQuant(q) && i <= |line|
    requires Copies(a, q, line, i, k1) && locs != Some(k1) && MostCopies(rest, a, q, line, i, locs, spans, k1)
    requires Copies(a, q, line, i, k2) && locs != Some(k2) && MostCopies(rest, a, q, line, i, locs, spans, k2)
    requires Reachable(rest, line, k1, locs, spans) && Reachable(rest, line, k2, locs, spans)
    ensures k1 == k2
  {
  }

  /** There is at most one preferred match. */
  lemma {:induction false} PreferredIsUnique(prog: seq<Instr>, line: seq<byte>, i: nat, locs: Option<nat>, spans: Spans,
                                             e1: nat, s1: Spans, e2: nat, s2: Spans)
    requires i <= |line| && Preferred(prog, line, i, locs, spans, e1, s1)
    requires Preferred(prog, line, i, locs, spans, e2, s2)
    ensures e1 == e2 && s1 == s2
    decreases |prog|
  {
    var rest := prog[1..];
    match prog[0]
    case Eof =>
    case Dol => PreferredIsUnique(rest, line, i, locs, spans, e1, s1, e2, s2);
    case Bra(n) => PreferredIsUnique(rest, line, i, locs, OpenAt(spans, n, i), e1, s1, e2, s2);
    case Ket(n) => PreferredIsUnique(rest, line, i, locs, CloseAt(spans, n, i), e1, s1, e2, s2);
    case Back(n) => PreferredIsUnique(rest, line, i + (spans.ends[n] - spans.starts[n]), locs, spans, e1, s1, e2, s2);
    case Item(a, q) =>
      if q.Once? {
        PreferredIsUnique(rest, line, i + 1, locs, spans, e1, s1, e2, s2);
      } else {
        var k1 := PreferredCopies(prog, line, i, locs, spans, e1, s1);
        var k2 := PreferredCopies(prog, line, i, locs, spans, e2, s2);
        SameCopies(rest, a, q, line, i, locs, spans, k1, k2);
        PreferredIsUnique(rest, line, k1, locs, spans, e1, s1, e2, s2);
      }
  }

  /**
   * The matcher is correct: it reports exactly the preferred match, end and group spans included, and it
   * fails exactly when the program has no way through the line from i.
   */
  lemma RunIsPreferred(prog: seq<Instr>, line: seq<byte>, i: nat, locs: Option<nat>, spans: Spans)
    requires i <= |line| && (locs.Some? ==> locs.value <= i)
    ensures forall end: nat, s: Spans ::
              Preferred(prog, line, i, locs, spans, end, s) <==> Run(prog, line, i, locs, spans) == Found(end, s)
    ensures Run(prog, line, i, locs, spans).Found? <==> Reachable(prog, line, i, locs, spans)
  {
    RunFindsPreferred(prog, line, i, locs, spans);
    var r := Run(prog, line, i, locs, spans);
    forall end: nat, s: Spans | Preferred(prog, line, i, locs, spans, end, s)
      ensures r == Found(end, s)
    {
      PreferredIsReach(prog, line, i, locs, spans, end, s);
      PreferredIsUnique(prog, line, i, locs, spans, end, s, r.end, r.spans);
    }
    if r.Found? {
      PreferredIsReach(prog, line, i, locs, spans, r.end, r.spans);
    }
  }
}
