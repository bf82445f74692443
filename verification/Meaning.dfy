/**
 * The program of a pattern gets through a stretch of line exactly when the stretch is in the pattern's language, and
 * the group spans it leaves are the texts the groups stand for.
 */
module Meaning {
  import opened Options
  import opened Bytes
  import opened Program
  import opened MatchSpec
  import opened MatchTheory
  import opened Pattern

  // ----- the texts of the groups, and their spans -----

  /** From start to end, the line reads t. */
  ghost predicate Reads(line: seq<byte>, start: nat, end: nat, t: seq<byte>) {
    start <= end <= |line| && line[start..end] == t
  }

  /** The spans of the groups closed are what they stand for, and open ones have read their text up to i. */
  ghost predicate Holds(open: seq<byte>, groups: seq<OpenGroup>, nbra: nat, texts: map<nat, seq<byte>>, line: seq<byte>,
                        i: nat, spans: Spans)
  {
    && nbra <= NBRA && i <= |line| && |open| == |groups|
    && (forall k :: 0 <= k < |open| ==> open[k] == groups[k].index < nbra)
    && (forall k :: 0 <= k < |open| ==> Reads(line, spans.starts[open[k]], i, groups[k].text))
    && (forall j, k :: 0 <= j < k < |open| ==> open[j] != open[k])
    && (forall n: nat :: n in texts <==> n < nbra && n !in open)
    && (forall n: nat :: n in texts ==> Reads(line, spans.starts[n], spans.ends[n], texts[n]))
  }

  /** The spans are what the groups, counted from 0 to total, stand for. */
  ghost predicate Captures(line: seq<byte>, spans: Spans, total: nat, captured: map<nat, seq<byte>>) {
    && total <= NBRA && (forall n: nat :: n in captured <==> n < total)
    && forall n: nat :: n in captured ==> Reads(line, spans.starts[n], spans.ends[n], captured[n])
  }

  lemma HoldsAfter(open: seq<byte>, groups: seq<OpenGroup>, nbra: nat, texts: map<nat, seq<byte>>, line: seq<byte>,
                   i: nat, k: nat, spans: Spans)
    requires Holds(open, groups, nbra, texts, line, i, spans) && i <= k <= |line|
    ensures Holds(open, Extended(groups, line[i..k]), nbra, texts, line, k, spans)
  {
    hide Reads;
    forall j | 0 <= j < |open|
      ensures Reads(line, spans.starts[open[j]], k, groups[j].text + line[i..k])
    {
      ReadsOn(line, spans.starts[open[j]], i, k, groups[j].text);
    }
  }

  lemma ReadsOn(line: seq<byte>, start: nat, i: nat, k: nat, t: seq<byte>)
    requires Reads(line, start, i, t) && i <= k <= |line|
    ensures Reads(line, start, k, t + line[i..k])
  {
  }

  lemma HoldsOpen(open: seq<byte>, groups: seq<OpenGroup>, nbra: nat, texts: map<nat, seq<byte>>, line: seq<byte>,
                  i: nat, spans: Spans)
    requires Holds(open, groups, nbra, texts, line, i, spans) && nbra < NBRA
    ensures Holds(open + [nbra], groups + [OpenGroup(nbra, [])], nbra + 1, texts, line, i, OpenAt(spans, nbra, i))
  {
    hide Reads;
    ReadsNothing(line, i);
  }

  lemma ReadsNothing(line: seq<byte>, i: nat)
    requires i <= |line|
    ensures Reads(line, i, i, [])
  {
  }

  lemma HoldsClose(open: seq<byte>, groups: seq<OpenGroup>, nbra: nat, texts: map<nat, seq<byte>>, line: seq<byte>,
                   i: nat, spans: Spans)
    requires Holds(open, groups, nbra, texts, line, i, spans) && open != []
    ensures var n, top := |open| - 1, groups[|open| - 1];
            && open[n] == top.index < NBRA
            && Holds(open[..n], groups[..n], nbra, texts[top.index := top.text], line, i, CloseAt(spans, open[n], i))
  {
    hide Reads;
    var n := |open| - 1;
    assert open == open[..n] + [open[n]];
    assert forall m: nat :: m in texts ==> m != open[n];
  }

  /** A back-reference repeats the text of its group. */
  lemma HoldsRef(open: seq<byte>, groups: seq<OpenGroup>, nbra: nat, texts: map<nat, seq<byte>>, line: seq<byte>,
                 i: nat, spans: Spans, n: byte)
    requires Holds(open, groups, nbra, texts, line, i, spans) && n < nbra && n !in open
    ensures n in texts && (Repeats(spans, n, line, i) <==> texts[n] <= line[i..])
    ensures spans.starts[n] <= spans.ends[n] && spans.ends[n] - spans.starts[n] == |texts[n]|
  {
  }

  // ----- symbols -----

  /** line[i..k] is a permitted number of characters the symbol denotes. */
  ghost predicate Stretch(symbol: Symbol, times: Times, line: seq<byte>, i: nat, k: nat) {
    i <= k <= |line| && Permits(times, k - i) && forall j :: i <= j < k ==> Denotes(symbol, line[j])
  }

  lemma CopiesAreStretches(symbol: Symbol, times: Times, prev: Prev, eof: byte, last: bool, line: seq<byte>, i: nat,
                           k: nat)
    requires ValidSymbol(symbol, prev, eof, last) && ValidTimes(times, 0)
    ensures ValidQuant(QuantOf(times)) && (QuantOf(times).Once? <==> times.One?)
    ensures Copies(AtomOf(symbol), QuantOf(times), line, i, k) <==> Stretch(symbol, times, line, i, k)
  {
    forall b: byte
      ensures Has(AtomOf(symbol), b) <==> Denotes(symbol, b)
    {
      AtomDenotes(symbol, prev, eof, last, b);
    }
  }

  /** The pieces match line[i..j]. */
  ghost predicate SpellsLine(pieces: seq<Piece>, groups: seq<OpenGroup>, nbra: nat, texts: map<nat, seq<byte>>,
                             line: seq<byte>, i: nat, j: nat, captured: map<nat, seq<byte>>)
  {
    i <= j <= |line| && Spells(pieces, groups, nbra, texts, line[i..j], captured)
  }

  /** Splitting a symbol's stretch off the front of the text. */
  lemma SymbolSplits(pieces: seq<Piece>, groups: seq<OpenGroup>, nbra: nat, texts: map<nat, seq<byte>>, line: seq<byte>,
                     i: nat, j: nat, captured: map<nat, seq<byte>>)
    requires i <= j <= |line| && pieces != [] && pieces[0].Sym?
    ensures SpellsLine(pieces, groups, nbra, texts, line, i, j, captured) <==>
              exists k: nat ::
                && i <= k <= |line| && Stretch(pieces[0].symbol, pieces[0].times, line, i, k)
                && SpellsLine(pieces[1..], Extended(groups, line[i..k]), nbra, texts, line, k, j, captured)
  {
    hide Stretch, Permits, Denotes, Extended;
    if SpellsLine(pieces, groups, nbra, texts, line, i, j, captured) {
      var k := SplitSymbol(pieces, groups, nbra, texts, line, i, j, captured);
    }
    if k: nat :| && i <= k <= |line| && Stretch(pieces[0].symbol, pieces[0].times, line, i, k)
                 && SpellsLine(pieces[1..], Extended(groups, line[i..k]), nbra, texts, line, k, j, captured) {
      Parts(line, i, k, j);
      StretchOf(pieces[0].symbol, pieces[0].times, line, i, k, j);
    }
  }

  lemma SplitSymbol(pieces: seq<Piece>, groups: seq<OpenGroup>, nbra: nat, texts: map<nat, seq<byte>>, line: seq<byte>,
                    i: nat, j: nat, captured: map<nat, seq<byte>>)
    returns (k: nat)
    requires pieces != [] && pieces[0].Sym? && SpellsLine(pieces, groups, nbra, texts, line, i, j, captured)
    ensures i <= k <= |line| && Stretch(pieces[0].symbol, pieces[0].times, line, i, k)
    ensures SpellsLine(pieces[1..], Extended(groups, line[i..k]), nbra, texts, line, k, j, captured)
  {
    hide Stretch, Permits, Denotes, Extended;
    var s := line[i..j];
    var c: nat :|
      && c <= |s| && Permits(pieces[0].times, c) && (forall m :: 0 <= m < c ==> Denotes(pieces[0].symbol, s[m]))
      && Spells(pieces[1..], Extended(groups, s[..c]), nbra, texts, s[c..], captured);
    k := i + c;
    Parts(line, i, k, j);
    StretchOf(pieces[0].symbol, pieces[0].times, line, i, k, j);
  }

  /** The same stretch, seen from the front of the text. */
  lemma StretchOf(symbol: Symbol, times: Times, line: seq<byte>, i: nat, k: nat, j: nat)
    requires i <= k <= j <= |line|
    ensures var s := line[i..j];
            Stretch(symbol, times, line, i, k)
            <==> Permits(times, k - i) && forall m :: 0 <= m < k - i ==> Denotes(symbol, s[m])
  {
    hide Permits, Denotes;
    var s := line[i..j];
    assert forall m :: i <= m < k ==> line[m] == s[m - i];
    assert forall m :: 0 <= m < k - i ==> s[m] == line[m + i];
  }

  lemma Parts(line: seq<byte>, i: nat, k: nat, j: nat)
    requires i <= k <= j <= |line|
    ensures line[i..j][..k - i] == line[i..k] && line[i..j][k - i..] == line[k..j]
  {
  }

  lemma SymbolReached(symbol: Symbol, times: Times, prev: Prev, eof: byte, last: bool, prog: seq<Instr>,
                      line: seq<byte>, i: nat, spans: Spans, end: nat, spans': Spans)
    returns (k: nat)
    requires ValidSymbol(symbol, prev, eof, last) && ValidTimes(times, 0) && i <= |line|
    requires Reach([Item(AtomOf(symbol), QuantOf(times))] + prog, line, i, None, spans, end, spans')
    ensures Stretch(symbol, times, line, i, k) && Reach(prog, line, k, None, spans, end, spans')
  {
    var a, q := AtomOf(symbol), QuantOf(times);
    assert ([Item(a, q)] + prog)[1..] == prog;
    CopiesAreStretches(symbol, times, prev, eof, last, line, i, i + 1);
    if q.Once? {
      AtomDenotes(symbol, prev, eof, last, line[i]);
      k := i + 1;
    } else {
      k :| Copies(a, q, line, i, k) && Reach(prog, line, k, None, spans, end, spans');
      CopiesAreStretches(symbol, times, prev, eof, last, line, i, k);
    }
  }

  lemma SymbolReaches(symbol: Symbol, times: Times, prev: Prev, eof: byte, last: bool, prog: seq<Instr>,
                      line: seq<byte>, i: nat, k: nat, spans: Spans, end: nat, spans': Spans)
    requires ValidSymbol(symbol, prev, eof, last) && ValidTimes(times, 0) && Stretch(symbol, times, line, i, k)
    requires Reach(prog, line, k, None, spans, end, spans')
    ensures Reach([Item(AtomOf(symbol), QuantOf(times))] + prog, line, i, None, spans, end, spans')
  {
    assert ([Item(AtomOf(symbol), QuantOf(times))] + prog)[1..] == prog;
    CopiesAreStretches(symbol, times, prev, eof, last, line, i, k);
    if times.One? {
      AtomDenotes(symbol, prev, eof, last, line[i]);
    }
  }

  // ----- groups and references -----

  lemma ReachGroup(g: Instr, rest: seq<Instr>, line: seq<byte>, i: nat, spans: Spans, after: Spans, end: nat,
                   spans': Spans)
    requires i <= |line| && (g.Bra? || g.Ket?) && g.n < NBRA
    requires after == if g.Bra? then OpenAt(spans, g.n, i) else CloseAt(spans, g.n, i)
    ensures Reach([g] + rest, line, i, None, spans, end, spans') <==> Reach(rest, line, i, None, after, end, spans')
  {
    assert ([g] + rest)[1..] == rest;
  }

  lemma ReachRef(n: byte, rest: seq<Instr>, line: seq<byte>, i: nat, spans: Spans, end: nat, spans': Spans)
    requires i <= |line|
    ensures Reach([Instr.Back(n)] + rest, line, i, None, spans, end, spans')
            <==>
            && Repeats(spans, n, line, i)
            && Reach(rest, line, i + (spans.ends[n] - spans.starts[n]), None, spans, end, spans')
  {
    assert ([Instr.Back(n)] + rest)[1..] == rest;
  }

  /** What a leading reference contributes. */
  lemma RefSpells(pieces: seq<Piece>, groups: seq<OpenGroup>, nbra: nat, texts: map<nat, seq<byte>>, line: seq<byte>,
                  i: nat, j: nat, captured: map<nat, seq<byte>>)
    requires i <= j <= |line| && pieces != [] && pieces[0].Ref? && pieces[0].group > 0
    requires pieces[0].group - 1 in texts
    ensures var t := texts[pieces[0].group - 1];
            SpellsLine(pieces, groups, nbra, texts, line, i, j, captured)
            <==>
            && i + |t| <= j && line[i..i + |t|] == t
            && SpellsLine(pieces[1..], Extended(groups, line[i..i + |t|]), nbra, texts, line, i + |t|, j, captured)
  {
    var t := texts[pieces[0].group - 1];
    if i + |t| <= j {
      Parts(line, i, i + |t|, j);
      assert t <= line[i..j] <==> line[i..j][..|t|] == t;
    }
  }

  /** What the first piece contributes to the program and to what is required of the rest. */
  lemma FirstPiece(pieces: seq<Piece>, prev: Prev, open: seq<byte>, nbra: nat, eof: byte, dollar: bool)
    requires ValidPieces(pieces, prev, open, nbra, eof, dollar) && ClosedReferences(pieces, open, nbra) && pieces != []
    requires nbra <= NBRA
    ensures pieces[0].Sym? ==>
              && ValidSymbol(pieces[0].symbol, prev, eof, pieces[0].times.One? && pieces[1..] == [] && !dollar)
              && ValidTimes(pieces[0].times, 0)
              && ValidPieces(pieces[1..], Atomic, open, nbra, eof, dollar)
              && ClosedReferences(pieces[1..], open, nbra)
              && Instructions(pieces, prev, open, nbra, eof, dollar)
                 == [Item(AtomOf(pieces[0].symbol), QuantOf(pieces[0].times))]
                    + Instructions(pieces[1..], Atomic, open, nbra, eof, dollar)
    ensures pieces[0].Open? ==>
              && nbra < NBRA == 9 && ValidPieces(pieces[1..], Paren, open + [nbra], nbra + 1, eof, dollar)
              && ClosedReferences(pieces[1..], open + [nbra], nbra + 1)
              && Instructions(pieces, prev, open, nbra, eof, dollar)
                 == [Bra(nbra)] + Instructions(pieces[1..], Paren, open + [nbra], nbra + 1, eof, dollar)
    ensures pieces[0].Close? ==>
              && open != [] && ValidPieces(pieces[1..], Paren, open[..|open| - 1], nbra, eof, dollar)
              && ClosedReferences(pieces[1..], open[..|open| - 1], nbra)
              && Instructions(pieces, prev, open, nbra, eof, dollar)
                 == [Ket(open[|open| - 1])] + Instructions(pieces[1..], Paren, open[..|open| - 1], nbra, eof, dollar)
    ensures pieces[0].Ref? ==>
              && 1 <= pieces[0].group <= 9 && pieces[0].group - 1 < nbra && pieces[0].group - 1 !in open
              && ValidPieces(pieces[1..], Atomic, open, nbra, eof, dollar)
              && ClosedReferences(pieces[1..], open, nbra)
              && Instructions(pieces, prev, open, nbra, eof, dollar)
                 == [Instr.Back(pieces[0].group - 1)] + Instructions(pieces[1..], Atomic, open, nbra, eof, dollar)
  {
    hide AtomOf, QuantOf, ValidSymbol, ValidNumber;
  }

  lemma GroupsFirst(i: Instr, prog: seq<Instr>)
    ensures Groups([i] + prog) == (if i.Bra? then 1 else 0) + Groups(prog)
  {
    assert ([i] + prog)[1..] == prog;
  }

  // ----- the end of a pattern -----

  lemma EndSpells(prev: Prev, nbra: nat, eof: byte, dollar: bool, texts: map<nat, seq<byte>>, line: seq<byte>, i: nat,
                  spans: Spans, end: nat, spans': Spans)
    requires ValidPieces([], prev, [], nbra, eof, dollar) && Holds([], [], nbra, texts, line, i, spans)
    ensures var prog := Instructions([], prev, [], nbra, eof, dollar);
            && Groups(prog) == 0
            && (Reach(prog, line, i, None, spans, end, spans') <==>
                  end == i && spans' == spans && (dollar ==> i == |line|))
    ensures forall c :: SpellsLine([], [], nbra, texts, line, i, i, c) <==> c == texts
    ensures Captures(line, spans, nbra, texts)
  {
    assert [Dol, Eof][1..] == [Eof] && [Eof][1..] == [];
    assert line[i..i] == [];
  }

  // ----- bounds -----

  lemma InBounds(open: seq<byte>, groups: seq<OpenGroup>, nbra: nat, texts: map<nat, seq<byte>>, line: seq<byte>,
                 i: nat, spans: Spans)
    requires Holds(open, groups, nbra, texts, line, i, spans)
    ensures nbra <= NBRA == 9 && i <= |line| && |open| == |groups| && forall k :: 0 <= k < |open| ==> open[k] < NBRA
  {
  }

  lemma NoneOpen(prev: Prev, open: seq<byte>, nbra: nat, eof: byte, dollar: bool, groups: seq<OpenGroup>,
                 texts: map<nat, seq<byte>>, line: seq<byte>, i: nat, spans: Spans)
    requires ValidPieces([], prev, open, nbra, eof, dollar) && Holds(open, groups, nbra, texts, line, i, spans)
    ensures open == [] && groups == []
  {
  }

  lemma StretchBounds(symbol: Symbol, times: Times, line: seq<byte>, i: nat, k: nat)
    requires Stretch(symbol, times, line, i, k)
    ensures i <= k <= |line|
  {
  }

  lemma SpellsBounds(pieces: seq<Piece>, groups: seq<OpenGroup>, nbra: nat, texts: map<nat, seq<byte>>, line: seq<byte>,
                     i: nat, j: nat, captured: map<nat, seq<byte>>)
    requires SpellsLine(pieces, groups, nbra, texts, line, i, j, captured)
    ensures i <= j <= |line|
  {
  }

  lemma Prefix(t: seq<byte>, line: seq<byte>, i: nat)
    requires i <= |line|
    ensures t <= line[i..] <==> i + |t| <= |line| && line[i..i + |t|] == t
  {
    if i + |t| <= |line| {
      assert line[i..][..|t|] == line[i..i + |t|];
    }
  }

  /** A parenthesis reads nothing. */
  lemma GroupSpells(pieces: seq<Piece>, groups: seq<OpenGroup>, nbra: nat, texts: map<nat, seq<byte>>, line: seq<byte>,
                    i: nat, j: nat, captured: map<nat, seq<byte>>)
    requires pieces != []
    ensures pieces[0].Open? ==>
              (SpellsLine(pieces, groups, nbra, texts, line, i, j, captured)
               <==> SpellsLine(pieces[1..], groups + [OpenGroup(nbra, [])], nbra + 1, texts, line, i, j, captured))
    ensures pieces[0].Close? && groups != [] ==>
              var n, top := |groups| - 1, groups[|groups| - 1];
              (SpellsLine(pieces, groups, nbra, texts, line, i, j, captured)
               <==> SpellsLine(pieces[1..], groups[..n], nbra, texts[top.index := top.text], line, i, j, captured))
  {
  }

  // ----- both directions -----

  /** What a way through the program of the pieces has read. */
  lemma {:induction false} ReachSpells(pieces: seq<Piece>, prev: Prev, open: seq<byte>, nbra: nat, eof: byte,
                                       dollar: bool, groups: seq<OpenGroup>, texts: map<nat, seq<byte>>,
                                       line: seq<byte>, i: nat, spans: Spans, end: nat, spans': Spans)
    returns (captured: map<nat, seq<byte>>)
    requires ValidPieces(pieces, prev, open, nbra, eof, dollar) && ClosedReferences(pieces, open, nbra)
    requires Holds(open, groups, nbra, texts, line, i, spans)
    requires Reach(Instructions(pieces, prev, open, nbra, eof, dollar), line, i, None, spans, end, spans')
    ensures SpellsLine(pieces, groups, nbra, texts, line, i, end, captured) && (dollar ==> end == |line|)
    ensures Captures(line, spans', nbra + Groups(Instructions(pieces, prev, open, nbra, eof, dollar)), captured)
    decreases |pieces|, 1
  {
    hide *;
    InBounds(open, groups, nbra, texts, line, i, spans);
    if pieces == [] {
      NoneOpen(prev, open, nbra, eof, dollar, groups, texts, line, i, spans);
      EndSpells(prev, nbra, eof, dollar, texts, line, i, spans, end, spans');
      captured := texts;
    } else {
      FirstPiece(pieces, prev, open, nbra, eof, dollar);
      var rest := pieces[1..];
      match pieces[0]
      case Sym(symbol, times) =>
        var prog, last := Instructions(rest, Atomic, open, nbra, eof, dollar), times.One? && rest == [] && !dollar;
        var k := SymbolReached(symbol, times, prev, eof, last, prog, line, i, spans, end, spans');
        StretchBounds(symbol, times, line, i, k);
        HoldsAfter(open, groups, nbra, texts, line, i, k, spans);
        captured := ReachSpells(rest, Atomic, open, nbra, eof, dollar, Extended(groups, line[i..k]), texts, line, k,
                                spans, end, spans');
        SpellsBounds(rest, Extended(groups, line[i..k]), nbra, texts, line, k, end, captured);
        SymbolSplits(pieces, groups, nbra, texts, line, i, end, captured);
        GroupsFirst(Item(AtomOf(symbol), QuantOf(times)), prog);
      case Ref(group) =>
        captured := RefIsSpelled(pieces, prev, open, nbra, eof, dollar, groups, texts, line, i, spans, end, spans');
      case _ =>
        captured := GroupIsSpelled(pieces, prev, open, nbra, eof, dollar, groups, texts, line, i, spans, end, spans');
    }
  }

  lemma {:induction false} RefIsSpelled(pieces: seq<Piece>, prev: Prev, open: seq<byte>, nbra: nat, eof: byte,
                                        dollar: bool, groups: seq<OpenGroup>, texts: map<nat, seq<byte>>,
                                        line: seq<byte>, i: nat, spans: Spans, end: nat, spans': Spans)
    returns (captured: map<nat, seq<byte>>)
    requires ValidPieces(pieces, prev, open, nbra, eof, dollar) && ClosedReferences(pieces, open, nbra)
    requires Holds(open, groups, nbra, texts, line, i, spans) && pieces != [] && pieces[0].Ref?
    requires Reach(Instructions(pieces, prev, open, nbra, eof, dollar), line, i, None, spans, end, spans')
    ensures SpellsLine(pieces, groups, nbra, texts, line, i, end, captured) && (dollar ==> end == |line|)
    ensures Captures(line, spans', nbra + Groups(Instructions(pieces, prev, open, nbra, eof, dollar)), captured)
    decreases |pieces|, 0
  {
    hide *;
    InBounds(open, groups, nbra, texts, line, i, spans);
    FirstPiece(pieces, prev, open, nbra, eof, dollar);
    var rest, n := pieces[1..], pieces[0].group - 1;
    var prog := Instructions(rest, Atomic, open, nbra, eof, dollar);
    HoldsRef(open, groups, nbra, texts, line, i, spans, n);
    ReachRef(n, prog, line, i, spans, end, spans');
    Prefix(texts[n], line, i);
    var k := i + |texts[n]|;
    HoldsAfter(open, groups, nbra, texts, line, i, k, spans);
    captured := ReachSpells(rest, Atomic, open, nbra, eof, dollar, Extended(groups, line[i..k]), texts, line, k, spans,
                            end, spans');
    SpellsBounds(rest, Extended(groups, line[i..k]), nbra, texts, line, k, end, captured);
    RefSpells(pieces, groups, nbra, texts, line, i, end, captured);
    GroupsFirst(Instr.Back(n), prog);
  }

  lemma {:induction false} GroupIsSpelled(pieces: seq<Piece>, prev: Prev, open: seq<byte>, nbra: nat, eof: byte,
                                          dollar: bool, groups: seq<OpenGroup>, texts: map<nat, seq<byte>>,
                                          line: seq<byte>, i: nat, spans: Spans, end: nat, spans': Spans)
    returns (captured: map<nat, seq<byte>>)
    requires ValidPieces(pieces, prev, open, nbra, eof, dollar) && ClosedReferences(pieces, open, nbra)
    requires Holds(open, groups, nbra, texts, line, i, spans) && pieces != [] && (pieces[0].Open? || pieces[0].Close?)
    requires Reach(Instructions(pieces, prev, open, nbra, eof, dollar), line, i, None, spans, end, spans')
    ensures SpellsLine(pieces, groups, nbra, texts, line, i, end, captured) && (dollar ==> end == |line|)
    ensures Captures(line, spans', nbra + Groups(Instructions(pieces, prev, open, nbra, eof, dollar)), captured)
    decreases |pieces|, 0
  {
    hide *;
    InBounds(open, groups, nbra, texts, line, i, spans);
    FirstPiece(pieces, prev, open, nbra, eof, dollar);
    if pieces[0].Open? {
      var prog := Instructions(pieces[1..], Paren, open + [nbra], nbra + 1, eof, dollar);
      HoldsOpen(open, groups, nbra, texts, line, i, spans);
      ReachGroup(Bra(nbra), prog, line, i, spans, OpenAt(spans, nbra, i), end, spans');
      captured := ReachSpells(pieces[1..], Paren, open + [nbra], nbra + 1, eof, dollar, groups + [OpenGroup(nbra, [])],
                              texts, line, i, OpenAt(spans, nbra, i), end, spans');
      GroupsFirst(Bra(nbra), prog);
    } else {
      var n, top := |open| - 1, groups[|open| - 1];
      var prog := Instructions(pieces[1..], Paren, open[..n], nbra, eof, dollar);
      HoldsClose(open, groups, nbra, texts, line, i, spans);
      ReachGroup(Ket(open[n]), prog, line, i, spans, CloseAt(spans, open[n], i), end, spans');
      captured := ReachSpells(pieces[1..], Paren, open[..n], nbra, eof, dollar, groups[..n],
                              texts[top.index := top.text], line, i, CloseAt(spans, open[n], i), end, spans');
      GroupsFirst(Ket(open[n]), prog);
    }
    GroupSpells(pieces, groups, nbra, texts, line, i, end, captured);
  }

  /** What the pieces match is a way through their program. */
  lemma {:induction false} SpellsReaches(pieces: seq<Piece>, prev: Prev, open: seq<byte>, nbra: nat, eof: byte,
                                         dollar: bool, groups: seq<OpenGroup>, texts: map<nat, seq<byte>>,
                                         line: seq<byte>, i: nat, spans: Spans, end: nat,
                                         captured: map<nat, seq<byte>>)
    returns (spans': Spans)
    requires ValidPieces(pieces, prev, open, nbra, eof, dollar) && ClosedReferences(pieces, open, nbra)
    requires Holds(open, groups, nbra, texts, line, i, spans)
    requires SpellsLine(pieces, groups, nbra, texts, line, i, end, captured) && (dollar ==> end == |line|)
    ensures i <= |line| && Reach(Instructions(pieces, prev, open, nbra, eof, dollar), line, i, None, spans, end, spans')
    decreases |pieces|, 1
  {
    hide *;
    InBounds(open, groups, nbra, texts, line, i, spans);
    if pieces == [] {
      NoneOpen(prev, open, nbra, eof, dollar, groups, texts, line, i, spans);
      NothingSpelled(groups, nbra, texts, line, i, end, captured);
      EndSpells(prev, nbra, eof, dollar, texts, line, i, spans, end, spans);
      spans' := spans;
    } else {
      FirstPiece(pieces, prev, open, nbra, eof, dollar);
      var rest := pieces[1..];
      match pieces[0]
      case Sym(symbol, times) =>
        var prog, last := Instructions(rest, Atomic, open, nbra, eof, dollar), times.One? && rest == [] && !dollar;
        SpellsBounds(pieces, groups, nbra, texts, line, i, end, captured);
        SymbolSplits(pieces, groups, nbra, texts, line, i, end, captured);
        var k: nat :|
          && i <= k <= |line| && Stretch(symbol, times, line, i, k)
          && SpellsLine(rest, Extended(groups, line[i..k]), nbra, texts, line, k, end, captured);
        StretchBounds(symbol, times, line, i, k);
        HoldsAfter(open, groups, nbra, texts, line, i, k, spans);
        spans' := SpellsReaches(rest, Atomic, open, nbra, eof, dollar, Extended(groups, line[i..k]), texts, line, k,
                                spans, end, captured);
        SymbolReaches(symbol, times, prev, eof, last, prog, line, i, k, spans, end, spans');
      case Ref(group) =>
        spans' := RefReaches(pieces, prev, open, nbra, eof, dollar, groups, texts, line, i, spans, end, captured);
      case _ =>
        spans' := GroupReaches(pieces, prev, open, nbra, eof, dollar, groups, texts, line, i, spans, end, captured);
    }
  }

  lemma NothingSpelled(groups: seq<OpenGroup>, nbra: nat, texts: map<nat, seq<byte>>, line: seq<byte>, i: nat, end: nat,
                       captured: map<nat, seq<byte>>)
    requires SpellsLine([], groups, nbra, texts, line, i, end, captured)
    ensures i == end
  {
    assert |line[i..end]| == end - i;
  }

  lemma {:induction false} RefReaches(pieces: seq<Piece>, prev: Prev, open: seq<byte>, nbra: nat, eof: byte,
                                      dollar: bool, groups: seq<OpenGroup>, texts: map<nat, seq<byte>>,
                                      line: seq<byte>, i: nat, spans: Spans, end: nat, captured: map<nat, seq<byte>>)
    returns (spans': Spans)
    requires ValidPieces(pieces, prev, open, nbra, eof, dollar) && ClosedReferences(pieces, open, nbra)
    requires Holds(open, groups, nbra, texts, line, i, spans) && pieces != [] && pieces[0].Ref?
    requires SpellsLine(pieces, groups, nbra, texts, line, i, end, captured) && (dollar ==> end == |line|)
    ensures i <= |line| && Reach(Instructions(pieces, prev, open, nbra, eof, dollar), line, i, None, spans, end, spans')
    decreases |pieces|, 0
  {
    hide *;
    InBounds(open, groups, nbra, texts, line, i, spans);
    FirstPiece(pieces, prev, open, nbra, eof, dollar);
    var rest, n := pieces[1..], pieces[0].group - 1;
    HoldsRef(open, groups, nbra, texts, line, i, spans, n);
    SpellsBounds(pieces, groups, nbra, texts, line, i, end, captured);
    RefSpells(pieces, groups, nbra, texts, line, i, end, captured);
    var k := i + |texts[n]|;
    Prefix(texts[n], line, i);
    HoldsAfter(open, groups, nbra, texts, line, i, k, spans);
    spans' := SpellsReaches(rest, Atomic, open, nbra, eof, dollar, Extended(groups, line[i..k]), texts, line, k, spans,
                            end, captured);
    ReachRef(n, Instructions(rest, Atomic, open, nbra, eof, dollar), line, i, spans, end, spans');
  }

  lemma {:induction false} GroupReaches(pieces: seq<Piece>, prev: Prev, open: seq<byte>, nbra: nat, eof: byte,
                                        dollar: bool, groups: seq<OpenGroup>, texts: map<nat, seq<byte>>,
                                        line: seq<byte>, i: nat, spans: Spans, end: nat,
                                        captured: map<nat, seq<byte>>)
    returns (spans': Spans)
    requires ValidPieces(pieces, prev, open, nbra, eof, dollar) && ClosedReferences(pieces, open, nbra)
    requires Holds(open, groups, nbra, texts, line, i, spans) && pieces != [] && (pieces[0].Open? || pieces[0].Close?)
    requires SpellsLine(pieces, groups, nbra, texts, line, i, end, captured) && (dollar ==> end == |line|)
    ensures i <= |line| && Reach(Instructions(pieces, prev, open, nbra, eof, dollar), line, i, None, spans, end, spans')
    decreases |pieces|, 0
  {
    hide *;
    InBounds(open, groups, nbra, texts, line, i, spans);
    FirstPiece(pieces, prev, open, nbra, eof, dollar);
    GroupSpells(pieces, groups, nbra, texts, line, i, end, captured);
    if pieces[0].Open? {
      HoldsOpen(open, groups, nbra, texts, line, i, spans);
      spans' := SpellsReaches(pieces[1..], Paren, open + [nbra], nbra + 1, eof, dollar, groups + [OpenGroup(nbra, [])],
                              texts, line, i, OpenAt(spans, nbra, i), end, captured);
      ReachGroup(Bra(nbra), Instructions(pieces[1..], Paren, open + [nbra], nbra + 1, eof, dollar), line, i, spans,
                 OpenAt(spans, nbra, i), end, spans');
    } else {
      var n, top := |open| - 1, groups[|open| - 1];
      HoldsClose(open, groups, nbra, texts, line, i, spans);
      spans' := SpellsReaches(pieces[1..], Paren, open[..n], nbra, eof, dollar, groups[..n],
                              texts[top.index := top.text], line, i, CloseAt(spans, open[n], i), end, captured);
      ReachGroup(Ket(open[n]), Instructions(pieces[1..], Paren, open[..n], nbra, eof, dollar), line, i, spans,
                 CloseAt(spans, open[n], i), end, spans');
    }
  }

  // ----- what the matcher finds -----

  /** line[i..j] is in the pattern's language, up to the end of the line with a trailing `$`. */
  ghost predicate MatchesAt(r: Regex, line: seq<byte>, i: nat, j: nat, captured: map<nat, seq<byte>>) {
    i <= j <= |line| && Language(r.pieces, line[i..j], captured) && (r.dollar ==> j == |line|)
  }

  lemma StartHolds(line: seq<byte>, i: nat, spans: Spans)
    requires i <= |line|
    ensures Holds([], [], 0, map[], line, i, spans)
  {
  }

  /**
   * The matcher accepts at i, started without locs, exactly when some stretch of the line starting there is in the
   * pattern's language; with a trailing `$` the stretch must end the line. The stretch it finds is one of them, and the
   * group spans it reports are what the groups stand for in it.
   */
  lemma RunDecidesLanguage(r: Regex, eof: byte, line: seq<byte>, i: nat, spans: Spans)
    requires Valid(r, eof) && ClosedReferences(r.pieces, [], 0) && i <= |line|
    ensures var result := Run(Code(r, eof), line, i, None, spans);
            && (result.Found? <==> exists j: nat, c: map<nat, seq<byte>> :: MatchesAt(r, line, i, j, c))
            && (result.Found? ==>
                  exists c: map<nat, seq<byte>> ::
                    MatchesAt(r, line, i, result.end, c) && Captures(line, result.spans, Groups(Code(r, eof)), c))
  {
    hide Run, Reach, ValidPieces, ClosedReferences, Instructions, Spells, Captures;
    var prog := Code(r, eof);
    StartHolds(line, i, spans);
    RunIsPreferred(prog, line, i, None, spans);
    var result := Run(prog, line, i, None, spans);
    if result.Found? {
      PreferredIsReach(prog, line, i, None, spans, result.end, result.spans);
      var c := ReachSpells(r.pieces, Nothing, [], 0, eof, r.dollar, [], map[], line, i, spans, result.end,
                           result.spans);
      assert MatchesAt(r, line, i, result.end, c);
    }
    if j: nat, c: map<nat, seq<byte>> :| MatchesAt(r, line, i, j, c) {
      var s := SpellsReaches(r.pieces, Nothing, [], 0, eof, r.dollar, [], map[], line, i, spans, j, c);
    }
  }
}
